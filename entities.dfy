/**
 * Watch entities (the `scrnr` record of src/screener.h) and the pure meaning of what
 * the controller does to a registry of them: the existence sweep of check_entities,
 * the group kills of catch_sigint, and the registration loop of main.
 */
module Entities {
  import opened Wrappers

  /** MAXENTRIES in src/screener.h. */
  const MaxEntries: int := 128

  /** One monitored file: `id`, `name` (the argument), resolved `path`, `updates`, `pid`. */
  datatype Entity = Entity(id: nat, name: string, path: string, updates: int, pid: int)

  datatype Signal = SIGUSR1 | SIGQUIT | SIGINT

  /** What the controller makes observable: printed notices and signals sent. */
  datatype Event =
    | FileDeleted(name: string, pid: int)  // "File deleted: <name>\tGonna kill: <pid>"
    | Kill(target: int, signal: Signal)    // kill(target, signal)
    | FileProblem(name: string)            // "Problems with file `<name>`."

  /** The registry holds `void *` elements; every one the program pushes is a real entity. */
  predicate AllEntities(es: seq<Option<Entity>>) {
    forall i :: 0 <= i < |es| ==> es[i].Some?
  }

  /** file_exists: `stat` succeeds on the path; the file system is a snapshot of present paths. */
  predicate FileExists(present: set<string>, path: string) {
    path in present
  }

  // ---------------------------------------------------------------------------
  // The existence sweep (one pass of the `for` loop in check_entities)

  /** The entities a pass keeps: those whose path still exists, in registry order. */
  function Survivors(es: seq<Option<Entity>>, present: set<string>): seq<Option<Entity>>
    requires AllEntities(es)
  {
    if es == [] then []
    else (if FileExists(present, es[0].value.path) then [es[0]] else [])
         + Survivors(es[1..], present)
  }

  /** The entities a pass removes, in registry order. */
  function Removed(es: seq<Option<Entity>>, present: set<string>): seq<Entity>
    requires AllEntities(es)
  {
    if es == [] then []
    else (if FileExists(present, es[0].value.path) then [] else [es[0].value])
         + Removed(es[1..], present)
  }

  /** What a pass prints and sends, entity by entity. */
  function SweepEvents(es: seq<Option<Entity>>, present: set<string>): seq<Event>
    requires AllEntities(es)
  {
    if es == [] then []
    else (if FileExists(present, es[0].value.path) then []
          else [FileDeleted(es[0].value.name, es[0].value.pid), Kill(es[0].value.pid, SIGUSR1)])
         + SweepEvents(es[1..], present)
  }

  /**
   * The sweep as its loop runs it, front to back: `kept` and `log` are what the entries
   * already visited left behind.
   */
  function KeptAfter(es: seq<Option<Entity>>, present: set<string>, kept: seq<Option<Entity>>): seq<Option<Entity>>
    requires AllEntities(es)
  {
    if es == [] then kept
    else KeptAfter(es[1..], present, if FileExists(present, es[0].value.path) then kept + [es[0]] else kept)
  }

  function LogAfter(es: seq<Option<Entity>>, present: set<string>, log: seq<Event>): seq<Event>
    requires AllEntities(es)
  {
    if es == [] then log
    else LogAfter(es[1..], present,
                  if FileExists(present, es[0].value.path) then log
                  else log + [FileDeleted(es[0].value.name, es[0].value.pid), Kill(es[0].value.pid, SIGUSR1)])
  }

  /** Running the sweep loop's accumulator keeps what the recursive definition keeps. */
  lemma {:induction false} KeptAfterSurvivors(es: seq<Option<Entity>>, present: set<string>, kept: seq<Option<Entity>>)
    requires AllEntities(es)
    ensures KeptAfter(es, present, kept) == kept + Survivors(es, present)
  {
    if es == [] {
      assert kept + [] == kept;
    } else if FileExists(present, es[0].value.path) {
      KeptAfterSurvivors(es[1..], present, kept + [es[0]]);
      assert Survivors(es, present) == [es[0]] + Survivors(es[1..], present);
      assert (kept + [es[0]]) + Survivors(es[1..], present) == kept + ([es[0]] + Survivors(es[1..], present));
    } else {
      KeptAfterSurvivors(es[1..], present, kept);
      assert Survivors(es, present) == [] + Survivors(es[1..], present);
    }
  }

  /** Running the sweep loop's accumulator logs what the recursive definition logs. */
  lemma {:induction false} LogAfterEvents(es: seq<Option<Entity>>, present: set<string>, log: seq<Event>)
    requires AllEntities(es)
    ensures LogAfter(es, present, log) == log + SweepEvents(es, present)
  {
    if es == [] {
      assert log + [] == log;
    } else if FileExists(present, es[0].value.path) {
      LogAfterEvents(es[1..], present, log);
      assert SweepEvents(es, present) == [] + SweepEvents(es[1..], present);
    } else {
      var e := es[0].value;
      var step := [FileDeleted(e.name, e.pid), Kill(e.pid, SIGUSR1)];
      LogAfterEvents(es[1..], present, log + step);
      assert SweepEvents(es, present) == step + SweepEvents(es[1..], present);
      assert (log + step) + SweepEvents(es[1..], present) == log + (step + SweepEvents(es[1..], present));
    }
  }

  /** What a pass keeps is again a registry of entities. */
  lemma {:induction false} SurvivorsAreEntities(es: seq<Option<Entity>>, present: set<string>)
    requires AllEntities(es)
    ensures AllEntities(Survivors(es, present))
  {
    if es != [] {
      SurvivorsAreEntities(es[1..], present);
    }
  }

  /** A pass keeps exactly the entries whose file still exists. */
  lemma {:induction false} SurvivorsMembers(es: seq<Option<Entity>>, present: set<string>)
    requires AllEntities(es)
    ensures AllEntities(Survivors(es, present))
    ensures forall x :: x in Survivors(es, present) <==> x in es && FileExists(present, x.value.path)
  {
    if es != [] {
      SurvivorsMembers(es[1..], present);
      assert es == [es[0]] + es[1..];
    }
  }

  /** A pass splits the registry: what it keeps and what it removes add up to all of it. */
  lemma {:induction false} SweepCounts(es: seq<Option<Entity>>, present: set<string>)
    requires AllEntities(es)
    ensures |Survivors(es, present)| + |Removed(es, present)| == |es|
    ensures |SweepEvents(es, present)| == 2 * |Removed(es, present)|
  {
    if es != [] {
      SweepCounts(es[1..], present);
    }
  }

  /** Only entities of the registry whose file is gone are removed. */
  lemma {:induction false} RemovedMembers(es: seq<Option<Entity>>, present: set<string>)
    requires AllEntities(es)
    ensures forall e :: e in Removed(es, present) ==> Some(e) in es && !FileExists(present, e.path)
  {
    if es != [] {
      RemovedMembers(es[1..], present);
      assert es == [es[0]] + es[1..];
    }
  }

  /**
   * Every removed entity yields exactly one notice followed by one SIGUSR1 aimed at its
   * pid, surviving entities yield nothing, and removals come in registry order.
   */
  lemma {:induction false} SweepAnnounces(es: seq<Option<Entity>>, present: set<string>)
    requires AllEntities(es)
    ensures |SweepEvents(es, present)| == 2 * |Removed(es, present)|
    ensures forall j :: 0 <= j < |Removed(es, present)| ==>
              && SweepEvents(es, present)[2 * j] == FileDeleted(Removed(es, present)[j].name, Removed(es, present)[j].pid)
              && SweepEvents(es, present)[2 * j + 1] == Kill(Removed(es, present)[j].pid, SIGUSR1)
  {
    SweepCounts(es, present);
    if es != [] {
      SweepAnnounces(es[1..], present);
      if !FileExists(present, es[0].value.path) {
        var e := es[0].value;
        var rest := Removed(es[1..], present);
        var evs := SweepEvents(es[1..], present);
        var rs := Removed(es, present);
        var all := SweepEvents(es, present);
        assert rs == [e] + rest;
        assert all == [FileDeleted(e.name, e.pid), Kill(e.pid, SIGUSR1)] + evs;
        forall j | 0 <= j < |rs|
          ensures all[2 * j] == FileDeleted(rs[j].name, rs[j].pid)
          ensures all[2 * j + 1] == Kill(rs[j].pid, SIGUSR1)
        {
          if j > 0 {
            assert rs[j] == rest[j - 1];
            assert all[2 * j] == evs[2 * (j - 1)];
            assert all[2 * j + 1] == evs[2 * (j - 1) + 1];
          }
        }
      }
    }
  }

  /** A second pass against the same file system removes nothing and says nothing. */
  lemma {:induction false} SweepIdempotent(es: seq<Option<Entity>>, present: set<string>)
    requires AllEntities(es)
    ensures AllEntities(Survivors(es, present))
    ensures Survivors(Survivors(es, present), present) == Survivors(es, present)
    ensures SweepEvents(Survivors(es, present), present) == []
  {
    SurvivorsMembers(es, present);
    if es != [] {
      SweepIdempotent(es[1..], present);
      var s := Survivors(es[1..], present);
      if FileExists(present, es[0].value.path) {
        var t := [es[0]] + s;
        assert Survivors(es, present) == t;
        assert t[0] == es[0] && t[1..] == s;
        assert Survivors(t, present) == [es[0]] + Survivors(s, present);
        assert SweepEvents(t, present) == SweepEvents(s, present);
      } else {
        assert Survivors(es, present) == s;
      }
    }
  }

  /** Two passes keep what one pass against the intersection of both snapshots keeps. */
  lemma {:induction false} SweepCompose(es: seq<Option<Entity>>, p1: set<string>, p2: set<string>)
    requires AllEntities(es)
    ensures AllEntities(Survivors(es, p1))
    ensures Survivors(Survivors(es, p1), p2) == Survivors(es, p1 * p2)
  {
    SurvivorsMembers(es, p1);
    if es != [] {
      SweepCompose(es[1..], p1, p2);
      var s := Survivors(es[1..], p1);
      if FileExists(p1, es[0].value.path) {
        var t := [es[0]] + s;
        assert Survivors(es, p1) == t;
        assert t[0] == es[0] && t[1..] == s;
        assert Survivors(t, p2) == (if FileExists(p2, es[0].value.path) then [es[0]] else []) + Survivors(s, p2);
      } else {
        assert Survivors(es, p1) == s;
      }
    }
  }

  // ---------------------------------------------------------------------------
  // The interrupt broadcast of catch_sigint

  /** SIGQUIT to the group -pid of every non-null element with pid > 0, in list order. */
  function InterruptKills(es: seq<Option<Entity>>): seq<Event> {
    if es == [] then []
    else (if es[0].Some? && es[0].value.pid > 0 then [Kill(-es[0].value.pid, SIGQUIT)] else [])
         + InterruptKills(es[1..])
  }

  lemma {:induction false} InterruptKillsAppend(a: seq<Option<Entity>>, b: seq<Option<Entity>>)
    ensures InterruptKills(a + b) == InterruptKills(a) + InterruptKills(b)
  {
    if a == [] {
      assert a + b == b;
    } else {
      var head := if a[0].Some? && a[0].value.pid > 0 then [Kill(-a[0].value.pid, SIGQUIT)] else [];
      assert (a + b)[0] == a[0];
      assert (a + b)[1..] == a[1..] + b;
      InterruptKillsAppend(a[1..], b);
      assert InterruptKills(a + b) == head + (InterruptKills(a[1..]) + InterruptKills(b));
      assert head + (InterruptKills(a[1..]) + InterruptKills(b)) == (head + InterruptKills(a[1..])) + InterruptKills(b);
    }
  }

  /** At most one signal per registry entry. */
  lemma {:induction false} InterruptCount(es: seq<Option<Entity>>)
    ensures |InterruptKills(es)| <= |es|
  {
    if es != [] {
      InterruptCount(es[1..]);
    }
  }

  /** Every signal sent is a SIGQUIT to the whole group of a registered entity with pid > 0. */
  lemma {:induction false} InterruptSound(es: seq<Option<Entity>>)
    ensures forall ev :: ev in InterruptKills(es) ==>
              ev.Kill? && ev.signal == SIGQUIT && ev.target < 0 && exists x :: x in es && x.Some? && x.value.pid == -ev.target
  {
    if es != [] {
      InterruptSound(es[1..]);
      var head := if es[0].Some? && es[0].value.pid > 0 then [Kill(-es[0].value.pid, SIGQUIT)] else [];
      assert InterruptKills(es) == head + InterruptKills(es[1..]);
      forall ev | ev in InterruptKills(es)
        ensures ev.Kill? && ev.signal == SIGQUIT && ev.target < 0 && exists x :: x in es && x.Some? && x.value.pid == -ev.target
      {
        if ev in head {
          assert es[0] in es;
        } else {
          var x :| x in es[1..] && x.Some? && x.value.pid == -ev.target;
          assert x in es;
        }
      }
    }
  }

  /** Every registered entity with a positive pid has its group signalled. */
  lemma {:induction false} InterruptComplete(es: seq<Option<Entity>>)
    ensures forall e :: Some(e) in es && e.pid > 0 ==> Kill(-e.pid, SIGQUIT) in InterruptKills(es)
  {
    if es != [] {
      InterruptComplete(es[1..]);
      assert es == [es[0]] + es[1..];
    }
  }

  // ---------------------------------------------------------------------------
  // Registration (the `for (i = 3, j = 0; ...)` loop of main)

  /** The id the entity built from argv[i] receives: `j` runs in lockstep with `i`. */
  function IdFor(i: nat): nat
    requires i >= 3
  {
    i - 3
  }

  /**
   * The entries pushed for argv[3..n]: an argument whose path resolves becomes an
   * entity, one that does not is skipped. `resolve` stands for realpath with errno.
   */
  function Registered(argv: seq<string>, resolve: string -> Option<string>, n: nat): seq<Option<Entity>>
    requires n <= |argv|
  {
    if n <= 3 then []
    else Registered(argv, resolve, n - 1)
         + match resolve(argv[n - 1])
           case Some(p) => [Some(Entity(IdFor(n - 1), argv[n - 1], p, 0, 0))]
           case None => []
  }

  /** The problem notices printed for argv[3..n]. */
  function Problems(argv: seq<string>, resolve: string -> Option<string>, n: nat): seq<Event>
    requires n <= |argv|
  {
    if n <= 3 then []
    else Problems(argv, resolve, n - 1)
         + if resolve(argv[n - 1]).None? then [FileProblem(argv[n - 1])] else []
  }

  /**
   * The registration loop as it runs: `es` and `log` are what the arguments before
   * argv[i] left behind.
   */
  function EntriesFrom(argv: seq<string>, resolve: string -> Option<string>, i: nat, es: seq<Option<Entity>>)
    : seq<Option<Entity>>
    requires i >= 3
    decreases |argv| - i
  {
    if i >= |argv| then es
    else EntriesFrom(argv, resolve, i + 1,
                     match resolve(argv[i])
                     case Some(p) => es + [Some(Entity(IdFor(i), argv[i], p, 0, 0))]
                     case None => es)
  }

  function ProblemsFrom(argv: seq<string>, resolve: string -> Option<string>, i: nat, log: seq<Event>): seq<Event>
    requires i >= 3
    decreases |argv| - i
  {
    if i >= |argv| then log
    else ProblemsFrom(argv, resolve, i + 1, if resolve(argv[i]).None? then log + [FileProblem(argv[i])] else log)
  }

  /** Running the registration loop's accumulators pushes what the recursive definition pushes. */
  lemma {:induction false} EntriesFromRegistered(argv: seq<string>, resolve: string -> Option<string>, i: nat,
                                                 acc: seq<Option<Entity>>)
    requires 3 <= i <= |argv|
    ensures EntriesFrom(argv, resolve, i, acc + Registered(argv, resolve, i)) == acc + Registered(argv, resolve, |argv|)
    decreases |argv| - i
  {
    if i < |argv| {
      var before := acc + Registered(argv, resolve, i);
      EntriesFromRegistered(argv, resolve, i + 1, acc);
      match resolve(argv[i])
      case Some(p) =>
        var x := Some(Entity(IdFor(i), argv[i], p, 0, 0));
        assert Registered(argv, resolve, i + 1) == Registered(argv, resolve, i) + [x];
        assert before + [x] == acc + Registered(argv, resolve, i + 1);
        assert EntriesFrom(argv, resolve, i, before) == EntriesFrom(argv, resolve, i + 1, before + [x]);
      case None =>
        assert Registered(argv, resolve, i + 1) == Registered(argv, resolve, i) + [];
        assert before == acc + Registered(argv, resolve, i + 1);
    }
  }

  /** Running the registration loop's accumulators reports what the recursive definition reports. */
  lemma {:induction false} ProblemsFromProblems(argv: seq<string>, resolve: string -> Option<string>, i: nat,
                                                acc: seq<Event>)
    requires 3 <= i <= |argv|
    ensures ProblemsFrom(argv, resolve, i, acc + Problems(argv, resolve, i)) == acc + Problems(argv, resolve, |argv|)
    decreases |argv| - i
  {
    if i < |argv| {
      var before := acc + Problems(argv, resolve, i);
      if resolve(argv[i]).None? {
        var x := FileProblem(argv[i]);
        assert Problems(argv, resolve, i + 1) == Problems(argv, resolve, i) + [x];
        assert before + [x] == acc + Problems(argv, resolve, i + 1);
      } else {
        assert Problems(argv, resolve, i + 1) == Problems(argv, resolve, i) + [];
        assert before == acc + Problems(argv, resolve, i + 1);
      }
      ProblemsFromProblems(argv, resolve, i + 1, acc);
    }
  }

  /** The pushed entries extend those of the shorter prefix of the arguments. */
  lemma RegisteredPrefix(argv: seq<string>, resolve: string -> Option<string>, n: nat)
    requires 3 < n <= |argv|
    ensures |Registered(argv, resolve, n - 1)| <= |Registered(argv, resolve, n)|
    ensures Registered(argv, resolve, n)[..|Registered(argv, resolve, n - 1)|] == Registered(argv, resolve, n - 1)
  {
  }

  /**
   * Every registered entry is an entity built from the argument at index id + 3, named
   * by that argument, with its resolved path and no updates yet.
   */
  lemma {:induction false} RegisteredSound(argv: seq<string>, resolve: string -> Option<string>, n: nat)
    requires n <= |argv|
    ensures AllEntities(Registered(argv, resolve, n))
    ensures forall k :: 0 <= k < |Registered(argv, resolve, n)| ==>
              var e := Registered(argv, resolve, n)[k].value;
              && e.id + 3 < n
              && e.name == argv[e.id + 3]
              && resolve(e.name) == Some(e.path)
              && e.updates == 0
  {
    if n > 3 {
      RegisteredSound(argv, resolve, n - 1);
      RegisteredPrefix(argv, resolve, n);
    }
  }

  /** Entries appear in argument order: ids strictly increase along the registry. */
  lemma {:induction false} RegisteredOrdered(argv: seq<string>, resolve: string -> Option<string>, n: nat)
    requires n <= |argv|
    ensures AllEntities(Registered(argv, resolve, n))
    ensures forall k, m :: 0 <= k < m < |Registered(argv, resolve, n)| ==>
              Registered(argv, resolve, n)[k].value.id < Registered(argv, resolve, n)[m].value.id
  {
    RegisteredSound(argv, resolve, n);
    if n > 3 {
      RegisteredOrdered(argv, resolve, n - 1);
      RegisteredSound(argv, resolve, n - 1);
      RegisteredPrefix(argv, resolve, n);
    }
  }

  /** Every argument whose path resolves is registered, with id = its index - 3. */
  lemma {:induction false} RegisteredComplete(argv: seq<string>, resolve: string -> Option<string>, n: nat)
    requires n <= |argv|
    ensures forall i :: 3 <= i < n && resolve(argv[i]).Some? ==>
              Some(Entity(IdFor(i), argv[i], resolve(argv[i]).value, 0, 0)) in Registered(argv, resolve, n)
  {
    if n > 3 {
      RegisteredComplete(argv, resolve, n - 1);
      RegisteredPrefix(argv, resolve, n);
      var prev := Registered(argv, resolve, n - 1);
      var r := Registered(argv, resolve, n);
      forall i | 3 <= i < n && resolve(argv[i]).Some?
        ensures Some(Entity(IdFor(i), argv[i], resolve(argv[i]).value, 0, 0)) in r
      {
        var x := Some(Entity(IdFor(i), argv[i], resolve(argv[i]).value, 0, 0));
        if i < n - 1 {
          var k :| 0 <= k < |prev| && prev[k] == x;
          assert r[k] == x;
        } else {
          assert r[|r| - 1] == x;
        }
      }
    }
  }

  /** The entries pushed and the notices printed together number one per file argument. */
  lemma {:induction false} RegisteredCount(argv: seq<string>, resolve: string -> Option<string>, n: nat)
    requires n <= |argv|
    ensures |Registered(argv, resolve, n)| + |Problems(argv, resolve, n)| == if n <= 3 then 0 else n - 3
  {
    if n > 3 {
      RegisteredCount(argv, resolve, n - 1);
    }
  }

  /** A notice is printed exactly for the file arguments whose path does not resolve. */
  lemma {:induction false} ProblemsReported(argv: seq<string>, resolve: string -> Option<string>, n: nat)
    requires n <= |argv|
    ensures forall ev :: ev in Problems(argv, resolve, n) ==>
              && ev.FileProblem?
              && resolve(ev.name).None?
              && exists i :: 3 <= i < n && argv[i] == ev.name
    ensures forall i :: 3 <= i < n && resolve(argv[i]).None? ==> FileProblem(argv[i]) in Problems(argv, resolve, n)
  {
    if n > 3 {
      ProblemsReported(argv, resolve, n - 1);
    }
  }

  /**
   * Each file argument is registered when its path resolves and reported when it does
   * not, and never both: no registered entry carries the name of a reported argument.
   */
  lemma RegisteredOrReported(argv: seq<string>, resolve: string -> Option<string>, n: nat)
    requires n <= |argv|
    ensures forall i :: 3 <= i < n && resolve(argv[i]).Some? ==>
              && Some(Entity(IdFor(i), argv[i], resolve(argv[i]).value, 0, 0)) in Registered(argv, resolve, n)
              && FileProblem(argv[i]) !in Problems(argv, resolve, n)
    ensures forall i :: 3 <= i < n && resolve(argv[i]).None? ==>
              && FileProblem(argv[i]) in Problems(argv, resolve, n)
              && forall x :: x in Registered(argv, resolve, n) ==> x.Some? && x.value.name != argv[i]
  {
    RegisteredSound(argv, resolve, n);
    RegisteredComplete(argv, resolve, n);
    ProblemsReported(argv, resolve, n);
  }

  // ---------------------------------------------------------------------------
  // The whole existence monitor (the `while (!stop)` loop of check_entities)

  /**
   * What the environment does during one pass: whether SIGINT reaches the monitor
   * before the loop test that precedes the pass (so that catch_sigint runs and sets
   * `stop`), whether gettimeofday succeeds at the start and at the end of the pass,
   * and which paths exist while the pass runs.
   */
  datatype PassEnv = PassEnv(interrupted: bool, startClockOk: bool, present: set<string>, endClockOk: bool)

  /** Some pass in `passes` is preceded by a SIGINT. */
  predicate SomeInterrupt(passes: seq<PassEnv>) {
    exists k :: 0 <= k < |passes| && passes[k].interrupted
  }

  /**
   * The monitor's outcome: the value check_entities returns (None while the given
   * passes run out before it returns), the registry left, everything printed and sent
   * so far, and the final `stop` flag.
   */
  datatype Outcome = Outcome(code: Option<int>, remaining: seq<Option<Entity>>, log: seq<Event>, stop: bool)

  /**
   * The `while (!stop)` loop of check_entities run over `passes`, starting from the
   * registry `es`, the flag `stop` and the notices and signals already in `log`. A
   * SIGINT before a loop test runs catch_sigint on the monitor's registry; the test
   * then sees `stop` and the function returns 0.
   */
  function RunMonitor(es: seq<Option<Entity>>, passes: seq<PassEnv>, stop: bool, log: seq<Event>): (o: Outcome)
    requires AllEntities(es)
    ensures AllEntities(o.remaining)
    decreases |passes|
  {
    if stop then Outcome(Some(0), es, log, true)
    else if passes == [] then Outcome(None, es, log, false)
    else if passes[0].interrupted then Outcome(Some(0), es, log + InterruptKills(es), true)
    else if !passes[0].startClockOk then Outcome(Some(-1), es, log, false)
    else
      var kept := Survivors(es, passes[0].present);
      var log' := log + SweepEvents(es, passes[0].present);
      SurvivorsAreEntities(es, passes[0].present);
      if |kept| <= 0 then Outcome(Some(0), kept, log', true)
      else if !passes[0].endClockOk then Outcome(Some(-1), kept, log', false)
      else RunMonitor(kept, passes[1..], false, log')
  }

  /**
   * check_entities returns 0 only with `stop` set, and then either `stop` was already
   * set, or a SIGINT came in, or the registry is empty. It never returns -1 when every
   * clock read succeeds. It only ever removes entities and keeps what was logged before
   * it started. It prints one notice and sends one SIGUSR1 per removed entity, and when
   * interrupted at most one SIGQUIT per entity left.
   */
  lemma {:induction false} RunMonitorProperties(es: seq<Option<Entity>>, passes: seq<PassEnv>, stop: bool, log: seq<Event>)
    requires AllEntities(es)
    ensures var o := RunMonitor(es, passes, stop, log);
            && (o.code == Some(0) ==> o.stop && (stop || SomeInterrupt(passes) || o.remaining == []))
            && ((forall k :: 0 <= k < |passes| ==> passes[k].startClockOk && passes[k].endClockOk) ==> o.code != Some(-1))
            && (forall x :: x in o.remaining ==> x in es)
            && |o.remaining| <= |es|
            && |log| + 2 * (|es| - |o.remaining|) <= |o.log| <= |log| + 2 * (|es| - |o.remaining|) + |o.remaining|
            && (!SomeInterrupt(passes) ==> |o.log| == |log| + 2 * (|es| - |o.remaining|))
            && o.log[..|log|] == log
    decreases |passes|
  {
    if !stop && passes != [] && passes[0].interrupted {
      InterruptCount(es);
      assert (log + InterruptKills(es))[..|log|] == log;
    } else if !stop && passes != [] && passes[0].startClockOk {
      var p := passes[0].present;
      var kept := Survivors(es, p);
      var log' := log + SweepEvents(es, p);
      SweepCounts(es, p);
      SurvivorsMembers(es, p);
      if |kept| > 0 && passes[0].endClockOk {
        RunMonitorProperties(kept, passes[1..], false, log');
        var o := RunMonitor(kept, passes[1..], false, log');
        assert o.log[..|log'|][..|log|] == log;
        assert forall k :: 0 <= k < |passes[1..]| ==> passes[1..][k] == passes[k + 1];
        if SomeInterrupt(passes[1..]) {
          var k :| 0 <= k < |passes[1..]| && passes[1..][k].interrupted;
          assert passes[k + 1].interrupted;
        }
      }
    }
  }
}
