/** The migration runner of src/db.cpp: a ledger, one transaction per file, rollback and resume. */
module Migrations {
  import opened Wrappers
  import opened Text

  datatype Entry = RegularFile(text: string) | OtherEntry

  datatype State<S> = State(schema: S, ledger: seq<string>)

  /** What can go wrong, once, while a file is looked at; a script may also fail by itself. */
  datatype Fault = QueryFails | ReadFails | BeginFails | ScriptFails | RecordFails | CommitFails

  type Faults = map<string, Fault>

  /** A script as a partial function on schemas; None where sqlite3_exec reports an error. */
  type Apply<!S> = (string, S) -> Option<S>

  // ---- Which files, in which order ----

  /** path::extension() is ".sql"; a name that is only ".sql" has no extension. */
  predicate IsMigration(name: string) {
    |name| > 4 && name[|name| - 4..] == ".sql"
  }

  function Scripts(dir: map<string, Entry>): map<string, string> {
    map n | n in dir && IsMigration(n) && dir[n].RegularFile? :: dir[n].text
  }

  predicate Sorted(names: seq<string>) {
    forall i, j | 0 <= i < j < |names| :: LexLess(names[i], names[j])
  }

  function InsertName(names: seq<string>, n: string): seq<string> {
    if names == [] || LexLess(n, names[0]) then [n] + names
    else [names[0]] + InsertName(names[1..], n)
  }

  lemma {:induction false} InsertNameSorts(names: seq<string>, n: string)
    requires Sorted(names) && n !in names
    ensures Sorted(InsertName(names, n))
    ensures forall x :: x in InsertName(names, n) <==> x in names || x == n
  {
    if names != [] && LexLess(n, names[0]) {
      forall j | 0 <= j < |names|
        ensures LexLess(n, names[j])
      {
        LexLessStrict(n, names[0], names[j]);
      }
    } else if names != [] {
      LexLessStrict(n, names[0], n);
      InsertNameSorts(names[1..], n);
      assert names == [names[0]] + names[1..];
      var rest := InsertName(names[1..], n);
      forall j | 0 <= j < |rest|
        ensures LexLess(names[0], rest[j])
      {
        assert rest[j] in rest;
      }
    }
  }

  /** There is only one sorted list of a set of names. */
  lemma {:induction false} SortedIsUnique(a: seq<string>, b: seq<string>)
    requires Sorted(a) && Sorted(b) && forall x :: x in a <==> x in b
    ensures a == b
  {
    assert b != [] ==> b[0] in b;
    if a != [] {
      assert a[0] in a && a[0] in b;
      assert b[0] in a;
      LexLessStrict(a[0], b[0], a[0]);
      assert a[0] == b[0];
      forall x
        ensures x in a[1..] <==> x in b[1..]
      {
        LexLessStrict(a[0], a[0], a[0]);
        assert x in a <==> x == a[0] || x in a[1..];
        assert x in b <==> x == b[0] || x in b[1..];
      }
      SortedIsUnique(a[1..], b[1..]);
    }
  }

  /** The sorted list itself. */
  ghost function Names(scripts: map<string, string>): (names: seq<string>)
    ensures Sorted(names) && forall x :: x in names <==> x in scripts
  {
    SortedExists(scripts.Keys);
    var names: seq<string> :| Sorted(names) && forall x :: x in names <==> x in scripts;
    names
  }

  lemma {:induction false} SortedExists(names: set<string>)
    ensures exists sorted: seq<string> :: Sorted(sorted) && forall x :: x in sorted <==> x in names
  {
    if names == {} {
      var none: seq<string> := [];
      assert Sorted(none);
    } else {
      var n :| n in names;
      SortedExists(names - {n});
      var rest: seq<string> :| Sorted(rest) && forall x :: x in rest <==> x in names - {n};
      InsertNameSorts(rest, n);
    }
  }

  /** The scripts of a directory: its regular files with a name, not empty, before the ending ".sql". */
  lemma ScriptsOf(dir: map<string, Entry>, n: string)
    ensures n in Scripts(dir) <==> n in dir && dir[n].RegularFile? && exists stem :: stem != "" && n == stem + ".sql"
    ensures n in Scripts(dir) ==> Scripts(dir)[n] == dir[n].text
  {
    if |n| > 4 && n[|n| - 4..] == ".sql" {
      assert n == n[..|n| - 4] + ".sql";
    }
    if stem :| stem != "" && n == stem + ".sql" {
      assert n[|n| - 4..] == ".sql";
    }
  }

  /** They run in the order of the characters at which their names first differ: 0001_ before 0002_. */
  lemma RunInCharacterOrder(dir: map<string, Entry>, x: string, y: string, k: nat) returns (i: nat, j: nat)
    requires x in Scripts(dir) && y in Scripts(dir)
    requires k < |x| && k < |y| && x[..k] == y[..k] && x[k] < y[k]
    ensures i < j < |Names(Scripts(dir))| && Names(Scripts(dir))[i] == x && Names(Scripts(dir))[j] == y
  {
    hide LexLess, Scripts;
    EarlierIsLess(x, y, k);
    i, j := InOrder(Scripts(dir), x, y);
  }

  /** And a name before any longer one that starts with it. */
  lemma RunPrefixFirst(dir: map<string, Entry>, x: string, more: string) returns (i: nat, j: nat)
    requires x in Scripts(dir) && x + more in Scripts(dir) && more != ""
    ensures i < j < |Names(Scripts(dir))|
    ensures Names(Scripts(dir))[i] == x && Names(Scripts(dir))[j] == x + more
  {
    hide LexLess, Scripts;
    LexLessPrefix(x, more);
    i, j := InOrder(Scripts(dir), x, x + more);
  }

  lemma InOrder(scripts: map<string, string>, x: string, y: string) returns (i: nat, j: nat)
    requires x in scripts && y in scripts && LexLess(x, y)
    ensures i < j < |Names(scripts)| && Names(scripts)[i] == x && Names(scripts)[j] == y
  {
    hide LexLess;
    var names := Names(scripts);
    assert x in names && y in names;
    i :| 0 <= i < |names| && names[i] == x;
    j :| 0 <= j < |names| && names[j] == y;
    LexLessStrict(x, y, x);
  }

  // ---- What a run does ----

  /** One file: skipped when the ledger has it, otherwise applied and recorded, or nothing at all. */
  function Step<S>(apply: Apply<S>, scripts: map<string, string>, s: State<S>, name: string, faults: Faults)
    : (State<S>, bool)
    requires name in scripts
  {
    if name in faults && faults[name].QueryFails? then (s, false)
    else if name in s.ledger then (s, true)
    else if name in faults then (s, false)
    else
      var schema := apply(scripts[name], s.schema);
      if schema.None? then (s, false) else (State(schema.value, s.ledger + [name]), true)
  }

  function RunOver<S>(apply: Apply<S>, scripts: map<string, string>, s: State<S>, names: seq<string>, faults: Faults)
    : (State<S>, bool)
    requires forall n | n in names :: n in scripts
    decreases |names|
  {
    if names == [] then (s, true)
    else
      var (s', ok) := Step(apply, scripts, s, names[0], faults);
      if ok then RunOver(apply, scripts, s', names[1..], faults) else (s, false)
  }

  ghost function Migrated<S>(apply: Apply<S>, scripts: map<string, string>, s: State<S>, faults: Faults)
    : (State<S>, bool)
  {
    RunOver(apply, scripts, s, Names(scripts), faults)
  }

  class Database<!S> {
    const apply: Apply<S>
    var schema: S
    var ledger: seq<string>
    var saved: Option<State<S>>

    function View(): State<S>
      reads this
    {
      State(schema, ledger)
    }

    constructor (apply: Apply<S>, schema: S)
      ensures this.apply == apply && View() == State(schema, []) && saved.None?
    {
      this.apply, this.schema, ledger, saved := apply, schema, [], None;
    }

    method Begin(fault: Option<Fault>) returns (ok: bool)
      requires saved.None?
      modifies this`saved
      ensures ok <==> fault != Some(BeginFails)
      ensures saved == if ok then Some(old(View())) else None
    {
      if fault == Some(BeginFails) {
        return false;
      }
      saved := Some(State(schema, ledger));
      return true;
    }

    /** A script that stops half way may leave anything behind inside the transaction. */
    method ExecScript(sql: string, fault: Option<Fault>) returns (ok: bool)
      modifies this`schema
      ensures ok <==> fault != Some(ScriptFails) && apply(sql, old(schema)).Some?
      ensures ok ==> schema == apply(sql, old(schema)).value
    {
      var result := apply(sql, schema);
      if fault == Some(ScriptFails) || result.None? {
        schema := *;
        return false;
      }
      schema := result.value;
      return true;
    }

    method Record(name: string, fault: Option<Fault>) returns (ok: bool)
      modifies this`ledger
      ensures ok <==> fault != Some(RecordFails)
      ensures ledger == if ok then old(ledger) + [name] else old(ledger)
    {
      if fault == Some(RecordFails) {
        return false;
      }
      ledger := ledger + [name];
      return true;
    }

    method Commit(fault: Option<Fault>) returns (ok: bool)
      requires saved.Some?
      modifies this`saved
      ensures ok <==> fault != Some(CommitFails)
      ensures saved == if ok then None else old(saved)
    {
      if fault == Some(CommitFails) {
        return false;
      }
      saved := None;
      return true;
    }

    method Rollback()
      requires saved.Some?
      modifies this
      ensures View() == old(saved).value && saved.None?
    {
      schema, ledger, saved := saved.value.schema, saved.value.ledger, None;
    }

    /** One file inside its own transaction. */
    method ApplyOne(name: string, sql: string, fault: Option<Fault>) returns (ok: bool)
      requires saved.None?
      requires fault != Some(QueryFails) && fault != Some(ReadFails)
      modifies this
      ensures saved.None?
      ensures ok <==> fault.None? && apply(sql, old(schema)).Some?
      ensures View() == if ok then State(apply(sql, old(schema)).value, old(ledger) + [name]) else old(View())
    {
      assert fault.Some? ==> !fault.value.QueryFails? && !fault.value.ReadFails?;
      assert fault.Some? ==>
          fault.value.BeginFails? || fault.value.ScriptFails? || fault.value.RecordFails? || fault.value.CommitFails?;
      ok := Begin(fault);
      if !ok {
        return;
      }
      ok := ExecScript(sql, fault);
      if ok {
        ok := Record(name, fault);
      }
      if ok {
        ok := Commit(fault);
      }
      if !ok {
        Rollback();
      }
    }

    /** fRunMigrations; None for a directory that is not there. */
    method RunMigrations(dir: Option<map<string, Entry>>, faults: Faults) returns (ok: bool)
      requires saved.None?
      modifies this
      ensures saved.None?
      ensures dir.None? ==> !ok && View() == old(View())
      ensures dir.Some? ==> (View(), ok) == Migrated(apply, Scripts(dir.value), old(View()), faults)
    {
      if dir.None? {
        return false;
      }
      var scripts := Scripts(dir.value);
      var names := SortedNames(scripts);
      for i := 0 to |names|
        invariant saved.None?
        invariant RunOver(apply, scripts, View(), names[i..], faults) == Migrated(apply, scripts, old(View()), faults)
      {
        var name := names[i];
        assert names[i..][0] == name && names[i..][1..] == names[i + 1..];
        var fault := if name in faults then Some(faults[name]) else None;
        if fault == Some(QueryFails) {
          return false;
        }
        if name in ledger {
          continue;
        }
        if fault == Some(ReadFails) {
          return false;
        }
        var applied := ApplyOne(name, scripts[name], fault);
        if !applied {
          return false;
        }
      }
      return true;
    }

    static method SortedNames(scripts: map<string, string>) returns (names: seq<string>)
      ensures names == Names(scripts)
    {
      names := [];
      var todo := scripts.Keys;
      while todo != {}
        invariant Sorted(names) && forall x :: x in names <==> x in scripts && x !in todo
        invariant todo <= scripts.Keys
        decreases todo
      {
        var n :| n in todo;
        InsertNameSorts(names, n);
        names, todo := InsertName(names, n), todo - {n};
      }
      SortedIsUnique(names, Names(scripts));
    }
  }

  // ---- Failure and resumption ----

  lemma {:induction false} RunOverAppend<S>(apply: Apply<S>, scripts: map<string, string>, s: State<S>,
                                            a: seq<string>, b: seq<string>, faults: Faults)
    requires forall n | n in a + b :: n in scripts
    ensures (forall n | n in a :: n in scripts) && (forall n | n in b :: n in scripts)
    ensures var (s', ok) := RunOver(apply, scripts, s, a, faults);
            RunOver(apply, scripts, s, a + b, faults) ==
            if ok then RunOver(apply, scripts, s', b, faults) else (s', false)
    decreases |a|
  {
    assert forall n | n in a :: n in a + b;
    assert forall n | n in b :: n in a + b;
    if a == [] {
      assert a + b == b;
    } else {
      assert (a + b)[1..] == a[1..] + b;
      var (s', ok) := Step(apply, scripts, s, a[0], faults);
      if ok {
        RunOverAppend(apply, scripts, s', a[1..], b, faults);
      }
    }
  }

  /** A run that fails leaves exactly the state in which it reached the file it failed on. */
  lemma {:induction false} FailureLeavesThePriorState<S>(apply: Apply<S>, scripts: map<string, string>, s: State<S>,
                                                         names: seq<string>, faults: Faults) returns (k: nat)
    requires forall n | n in names :: n in scripts
    requires !RunOver(apply, scripts, s, names, faults).1
    ensures k < |names| && (forall n | n in names[..k] :: n in scripts)
    ensures RunOver(apply, scripts, s, names[..k], faults) == (RunOver(apply, scripts, s, names, faults).0, true)
    ensures !Step(apply, scripts, RunOver(apply, scripts, s, names, faults).0, names[k], faults).1
    decreases |names|
  {
    var (s', ok) := Step(apply, scripts, s, names[0], faults);
    if ok {
      var j := FailureLeavesThePriorState(apply, scripts, s', names[1..], faults);
      k := j + 1;
      assert names[..k][1..] == names[1..][..j];
    } else {
      k := 0;
    }
  }

  /** Everything a successful run went over is in the ledger, and what was there stays there. */
  lemma {:induction false} RunRecords<S>(apply: Apply<S>, scripts: map<string, string>, s: State<S>,
                                         names: seq<string>, faults: Faults)
    requires forall n | n in names :: n in scripts
    ensures var (end, ok) := RunOver(apply, scripts, s, names, faults);
            && s.ledger <= end.ledger
            && (ok ==> forall n | n in names :: n in end.ledger)
    decreases |names|
  {
    if names != [] {
      var (s', ok) := Step(apply, scripts, s, names[0], faults);
      if ok {
        RunRecords(apply, scripts, s', names[1..], faults);
        assert names == [names[0]] + names[1..];
        assert names[0] in s'.ledger;
      }
    }
  }

  /** Once all are recorded nothing changes any more, whatever goes wrong. */
  lemma {:induction false} RecordedIsSkipped<S>(apply: Apply<S>, scripts: map<string, string>, s: State<S>,
                                                names: seq<string>, faults: Faults)
    requires forall n | n in names :: n in scripts && n in s.ledger
    ensures RunOver(apply, scripts, s, names, faults).0 == s
    ensures faults == map[] ==> RunOver(apply, scripts, s, names, faults).1
    decreases |names|
  {
    if names != [] {
      RecordedIsSkipped(apply, scripts, s, names[1..], faults);
    }
  }

  /** Going on from wherever an attempt stopped is the same as never having been interrupted. */
  lemma {:induction false} ResumeOver<S>(apply: Apply<S>, scripts: map<string, string>, s: State<S>,
                                         names: seq<string>, faults: Faults)
    requires forall n | n in names :: n in scripts
    ensures var (mid, ok) := RunOver(apply, scripts, s, names, faults);
            && RunOver(apply, scripts, mid, names, map[]) == RunOver(apply, scripts, s, names, map[])
            && (ok ==> RunOver(apply, scripts, s, names, map[]) == (mid, true))
    decreases |names|
  {
    if names != [] {
      var (s', ok) := Step(apply, scripts, s, names[0], faults);
      if ok {
        ResumeOver(apply, scripts, s', names[1..], faults);
        RunRecords(apply, scripts, s', names[1..], faults);
        assert names[0] in s'.ledger;
      }
    }
  }

  /** Attempts over one directory, each with its own faults. */
  ghost function Attempts<S>(apply: Apply<S>, scripts: map<string, string>, s: State<S>, attempts: seq<Faults>)
    : State<S>
    decreases |attempts|
  {
    if attempts == [] then s
    else Attempts(apply, scripts, Migrated(apply, scripts, s, attempts[0]).0, attempts[1..])
  }

  /**
   However often and wherever it was interrupted, one more uninterrupted run gives what a single uninterrupted run
   would have given; and an attempt that succeeds already is at that state, with nothing left for a later run.
   */
  lemma {:induction false} ResumedIsUninterrupted<S>(apply: Apply<S>, scripts: map<string, string>, s: State<S>,
                                                     attempts: seq<Faults>, last: Faults)
    ensures var t := Attempts(apply, scripts, s, attempts);
            var clean := Migrated(apply, scripts, s, map[]);
            var (end, ok) := Migrated(apply, scripts, t, last);
            && Migrated(apply, scripts, t, map[]) == clean
            && (ok ==> clean == (end, true) && Migrated(apply, scripts, end, map[]) == (end, true))
            && (ok ==> forall faults :: Migrated(apply, scripts, end, faults).0 == end)
    decreases |attempts|
  {
    var names := Names(scripts);
    if attempts == [] {
      ResumeOver(apply, scripts, s, names, last);
      var (end, ok) := Migrated(apply, scripts, s, last);
      RunRecords(apply, scripts, s, names, last);
      if ok {
        forall faults
          ensures RunOver(apply, scripts, end, names, faults).0 == end
        {
          RecordedIsSkipped(apply, scripts, end, names, faults);
        }
        RecordedIsSkipped(apply, scripts, end, names, map[]);
      }
    } else {
      ResumeOver(apply, scripts, s, names, attempts[0]);
      ResumedIsUninterrupted(apply, scripts, Migrated(apply, scripts, s, attempts[0]).0, attempts[1..], last);
    }
  }

  // ---- A growing directory ----

  /** The scripts of a ledger applied in its order. */
  function Folded<S>(apply: Apply<S>, scripts: map<string, string>, base: S, ledger: seq<string>): Option<S>
    requires forall n | n in ledger :: n in scripts
  {
    if ledger == [] then Some(base)
    else
      var before := Folded(apply, scripts, base, ledger[..|ledger| - 1]);
      if before.None? then None else apply(scripts[ledger[|ledger| - 1]], before.value)
  }

  /** The schema is what the ledger says, and no name is in the ledger twice. */
  ghost predicate Consistent<S>(apply: Apply<S>, scripts: map<string, string>, base: S, s: State<S>) {
    && (forall n | n in s.ledger :: n in scripts)
    && (forall i, j | 0 <= i < j < |s.ledger| :: s.ledger[i] != s.ledger[j])
    && Folded(apply, scripts, base, s.ledger) == Some(s.schema)
  }

  ghost predicate Extends(more: map<string, string>, scripts: map<string, string>) {
    forall n | n in scripts :: n in more && more[n] == scripts[n]
  }

  lemma {:induction false} FoldedGrows<S>(apply: Apply<S>, scripts: map<string, string>, more: map<string, string>,
                                          base: S, ledger: seq<string>)
    requires Extends(more, scripts) && forall n | n in ledger :: n in scripts
    ensures Folded(apply, more, base, ledger) == Folded(apply, scripts, base, ledger)
  {
    if ledger != [] {
      FoldedGrows(apply, scripts, more, base, ledger[..|ledger| - 1]);
    }
  }

  lemma {:induction false} RunStaysConsistent<S>(apply: Apply<S>, scripts: map<string, string>, base: S, s: State<S>,
                                                 names: seq<string>, faults: Faults)
    requires Consistent(apply, scripts, base, s) && forall n | n in names :: n in scripts
    ensures Consistent(apply, scripts, base, RunOver(apply, scripts, s, names, faults).0)
    decreases |names|
  {
    if names != [] {
      var (s', ok) := Step(apply, scripts, s, names[0], faults);
      if ok {
        if s' != s {
          assert s'.ledger[..|s'.ledger| - 1] == s.ledger;
        }
        RunStaysConsistent(apply, scripts, base, s', names[1..], faults);
      }
    }
  }

  datatype Attempt = Attempt(scripts: map<string, string>, faults: Faults)

  ghost predicate Growing(attempts: seq<Attempt>) {
    forall i | 0 < i < |attempts| :: Extends(attempts[i].scripts, attempts[i - 1].scripts)
  }

  /** The state after the attempts, newest last. */
  ghost function Series<S>(apply: Apply<S>, s: State<S>, attempts: seq<Attempt>): State<S> {
    if attempts == [] then s
    else
      var last := attempts[|attempts| - 1];
      Migrated(apply, last.scripts, Series(apply, s, attempts[..|attempts| - 1]), last.faults).0
  }

  /** Over any series of attempts on a growing directory, failing or not. */
  lemma {:induction false} SeriesStaysConsistent<S>(apply: Apply<S>, base: S, attempts: seq<Attempt>)
    requires attempts != [] && Growing(attempts)
    ensures Consistent(apply, attempts[|attempts| - 1].scripts, base, Series(apply, State(base, []), attempts))
  {
    var earlier, last := attempts[..|attempts| - 1], attempts[|attempts| - 1];
    var s := Series(apply, State(base, []), earlier);
    if earlier != [] {
      SeriesStaysConsistent(apply, base, earlier);
      FoldedGrows(apply, earlier[|earlier| - 1].scripts, last.scripts, base, s.ledger);
    }
    RunStaysConsistent(apply, last.scripts, base, s, Names(last.scripts), last.faults);
  }

  // ---- Upgrading and installing ----

  function Absent(names: seq<string>, ledger: seq<string>): seq<string> {
    if names == [] then []
    else if names[0] in ledger then Absent(names[1..], ledger)
    else [names[0]] + Absent(names[1..], ledger)
  }

  /** A run that succeeds records, in name order, just the files the ledger lacked. */
  lemma {:induction false} SuccessAppendsTheAbsent<S>(apply: Apply<S>, scripts: map<string, string>, s: State<S>,
                                                      names: seq<string>, faults: Faults)
    requires Sorted(names) && forall n | n in names :: n in scripts
    requires RunOver(apply, scripts, s, names, faults).1
    ensures RunOver(apply, scripts, s, names, faults).0.ledger == s.ledger + Absent(names, s.ledger)
    decreases |names|
  {
    if names != [] {
      var (s', _) := Step(apply, scripts, s, names[0], faults);
      SuccessAppendsTheAbsent(apply, scripts, s', names[1..], faults);
      if s' != s {
        assert names[0] !in names[1..] by {
          LexLessStrict(names[0], names[0], names[0]);
        }
        AbsentIgnores(names[1..], s.ledger, names[0]);
        assert s.ledger + [names[0]] + Absent(names[1..], s.ledger) == s.ledger + Absent(names, s.ledger);
      }
    }
  }

  lemma {:induction false} FoldedFromFront<S>(apply: Apply<S>, scripts: map<string, string>, base: S, n: string,
                                              rest: seq<string>)
    requires n in scripts && forall m | m in rest :: m in scripts
    ensures var first := apply(scripts[n], base);
            Folded(apply, scripts, base, [n] + rest) ==
            if first.None? then None else Folded(apply, scripts, first.value, rest)
  {
    assert ([n] + rest)[|rest|] == if rest == [] then n else rest[|rest| - 1];
    if rest == [] {
      assert ([n] + rest)[..0] == [];
    } else {
      assert ([n] + rest)[..|rest|] == [n] + rest[..|rest| - 1];
      FoldedFromFront(apply, scripts, base, n, rest[..|rest| - 1]);
    }
  }

  lemma {:induction false} AbsentMembers(names: seq<string>, ledger: seq<string>)
    ensures forall n :: n in Absent(names, ledger) <==> n in names && n !in ledger
  {
    if names != [] {
      AbsentMembers(names[1..], ledger);
      assert names == [names[0]] + names[1..];
    }
  }

  lemma {:induction false} AbsentSorted(names: seq<string>, ledger: seq<string>)
    requires Sorted(names)
    ensures Sorted(Absent(names, ledger))
  {
    if names != [] {
      AbsentSorted(names[1..], ledger);
      AbsentMembers(names[1..], ledger);
      var rest := Absent(names[1..], ledger);
      forall j | 0 <= j < |rest|
        ensures LexLess(names[0], rest[j])
      {
        assert rest[j] in rest;
      }
    }
  }

  /** No file that is still to run meets a fault, and for none of the others does the ledger query fail. */
  predicate Unhindered(names: seq<string>, ledger: seq<string>, faults: Faults) {
    forall n | n in names && n in faults :: n in ledger && !faults[n].QueryFails?
  }

  lemma {:induction false} RunOverIff<S>(apply: Apply<S>, scripts: map<string, string>, s: State<S>,
                                         names: seq<string>, faults: Faults)
    requires Sorted(names) && forall n | n in names :: n in scripts
    ensures var (end, ok) := RunOver(apply, scripts, s, names, faults);
            var missing := Absent(names, s.ledger);
            && (forall n | n in missing :: n in scripts)
            && var schema := Folded(apply, scripts, s.schema, missing);
               && (ok <==> Unhindered(names, s.ledger, faults) && schema.Some?)
               && (ok ==> end.schema == schema.value)
    decreases |names|
  {
    AbsentMembers(names, s.ledger);
    if names != [] {
      var n, rest := names[0], names[1..];
      assert names == [n] + rest;
      assert n !in rest by {
        LexLessStrict(n, n, n);
      }
      AbsentMembers(rest, s.ledger);
      if n in s.ledger {
        RunOverIff(apply, scripts, s, rest, faults);
      } else {
        var schema := apply(scripts[n], s.schema);
        FoldedFromFront(apply, scripts, s.schema, n, Absent(rest, s.ledger));
        if schema.Some? {
          AbsentIgnores(rest, s.ledger, n);
          RunOverIff(apply, scripts, State(schema.value, s.ledger + [n]), rest, faults);
        }
      }
    }
  }

  /**
   A run succeeds exactly when nothing that is still to run, or to be looked up, meets a fault and the absent scripts
   apply one after the other in name order. It then leaves just that schema, and the absent names in that order.
   */
  lemma RunSucceedsIff<S>(apply: Apply<S>, scripts: map<string, string>, s: State<S>, faults: Faults)
    ensures var (end, ok) := Migrated(apply, scripts, s, faults);
            var missing := Absent(Names(scripts), s.ledger);
            && Sorted(missing) && (forall n :: n in missing <==> n in scripts && n !in s.ledger)
            && var schema := Folded(apply, scripts, s.schema, missing);
               && (ok <==>
                     && (forall n | n in scripts && n in faults :: n in s.ledger && !faults[n].QueryFails?)
                     && schema.Some?)
               && (ok ==> end == State(schema.value, s.ledger + missing))
  {
    hide RunOver, Folded, LexLess, Absent;
    var names := Names(scripts);
    AbsentMembers(names, s.ledger);
    AbsentSorted(names, s.ledger);
    RunOverIff(apply, scripts, s, names, faults);
    if Migrated(apply, scripts, s, faults).1 {
      SuccessAppendsTheAbsent(apply, scripts, s, names, faults);
    }
  }

  lemma {:induction false} AbsentIgnores(names: seq<string>, ledger: seq<string>, n: string)
    requires n !in names
    ensures Absent(names, ledger + [n]) == Absent(names, ledger)
  {
    if names != [] {
      AbsentIgnores(names[1..], ledger, n);
    }
  }

  lemma {:induction false} AbsentAppend(a: seq<string>, b: seq<string>, ledger: seq<string>)
    ensures Absent(a + b, ledger) == Absent(a, ledger) + Absent(b, ledger)
  {
    if a == [] {
      assert a + b == b;
    } else {
      assert (a + b)[1..] == a[1..] + b;
      AbsentAppend(a[1..], b, ledger);
    }
  }

  lemma {:induction false} AbsentAll(names: seq<string>, ledger: seq<string>)
    ensures (forall n | n in names :: n in ledger) ==> Absent(names, ledger) == []
    ensures (forall n | n in names :: n !in ledger) ==> Absent(names, ledger) == names
  {
    if names != [] {
      AbsentAll(names[1..], ledger);
      assert names == [names[0]] + names[1..];
    }
  }

  /**
   A database brought up with an older directory and then upgraded has the ledger, and so the schema, of one installed
   with the newer directory at once, exactly when every file that came later also sorts later.
   */
  lemma UpgradeIsInstallIff<S>(apply: Apply<S>, scripts: map<string, string>, more: map<string, string>, base: S)
    requires Extends(more, scripts)
    requires Migrated(apply, scripts, State(base, []), map[]).1
    requires Migrated(apply, more, Migrated(apply, scripts, State(base, []), map[]).0, map[]).1
    requires Migrated(apply, more, State(base, []), map[]).1
    ensures var upgraded := Migrated(apply, more, Migrated(apply, scripts, State(base, []), map[]).0, map[]).0;
            var installed := Migrated(apply, more, State(base, []), map[]).0;
            && (Names(scripts) <= Names(more) <==> upgraded.ledger == installed.ledger)
            && (Names(scripts) <= Names(more) ==> upgraded == installed)
  {
    hide RunOver, Names, LexLess, Absent;
    var empty := State(base, []);
    var s := Migrated(apply, scripts, empty, map[]).0;
    SuccessAppendsTheAbsent(apply, scripts, empty, Names(scripts), map[]);
    SuccessAppendsTheAbsent(apply, more, empty, Names(more), map[]);
    SuccessAppendsTheAbsent(apply, more, s, Names(more), map[]);
    AbsentAll(Names(scripts), []);
    AbsentAll(Names(more), []);
    assert s.ledger == Names(scripts);
    AppendsIffPrefix(Names(scripts), Names(more));
    SameLedgerSameSchema(apply, scripts, more, base, empty);
  }

  lemma SortedDistinct(names: seq<string>, i: nat, j: nat)
    requires Sorted(names) && i < j < |names|
    ensures names[i] != names[j]
  {
    LexLessStrict(names[i], names[i], names[i]);
  }

  lemma AppendsIffPrefix(early: seq<string>, all: seq<string>)
    requires Sorted(all)
    ensures early <= all <==> early + Absent(all, early) == all
  {
    hide Sorted, Absent;
    if early <= all {
      var late := all[|early|..];
      assert all == early + late;
      AbsentAppend(early, late, early);
      AbsentAll(early, early);
      forall n | n in late
        ensures n !in early
      {
        var j :| 0 <= j < |late| && late[j] == n;
        if i :| 0 <= i < |early| && early[i] == n {
          SortedDistinct(all, i, |early| + j);
        }
      }
      AbsentAll(late, early);
    }
  }

  lemma SameLedgerSameSchema<S>(apply: Apply<S>, scripts: map<string, string>, more: map<string, string>, base: S,
                                empty: State<S>)
    requires Extends(more, scripts) && empty == State(base, [])
    ensures var upgraded := Migrated(apply, more, Migrated(apply, scripts, empty, map[]).0, map[]).0;
            var installed := Migrated(apply, more, empty, map[]).0;
            upgraded.ledger == installed.ledger ==> upgraded.schema == installed.schema
  {
    var twice := [Attempt(scripts, map[]), Attempt(more, map[])];
    var once := [Attempt(more, map[])];
    SeriesStaysConsistent(apply, base, twice);
    SeriesStaysConsistent(apply, base, once);
    assert twice[..1] == [twice[0]] && twice[..1][..0] == [] && once[..0] == [];
    assert Series(apply, empty, twice[..1]) == Migrated(apply, scripts, empty, map[]).0;
  }
}
