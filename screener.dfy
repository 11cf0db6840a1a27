/**
 * The controller's sequential logic in src/screener.c: the global `stop` flag, the
 * registry `monos`, and what the controller prints and signals, kept as an event log.
 * Signals are not delivered: a `kill` is an event appended to `log`.
 */
module Screener {
  import opened Wrappers
  import opened Dldl
  import opened Entities

  class Screener {
    /** The process-wide `stop` flag (a `sig_atomic_t` that is only ever set to 1). */
    var stop: bool
    /** The notices printed and the signals sent, in order. */
    var log: seq<Event>
    /** The registry of watch entities. */
    const monos: DList<Option<Entity>>

    /** Start of main: `stop` is 0 and dldl_create gives an empty registry. */
    constructor ()
      ensures fresh(monos) && monos.Valid() && monos.elements == []
      ensures !stop && log == []
    {
      stop := false;
      log := [];
      monos := new DList();
    }

    /**
     * catch_sigint: sets `stop`, then sends SIGQUIT to the process group `-pid` of every
     * non-null element with pid > 0, walking the registry from first to last.
     */
    method CatchSigint()
      requires monos.Valid()
      modifies this
      ensures stop
      ensures log == old(log) + InterruptKills(monos.elements)
    {
      stop := true;
      var node := monos.first;
      ghost var k := 0;
      while node != null
        invariant 0 <= k <= |monos.nodes|
        invariant node == if k < |monos.nodes| then monos.nodes[k] else null
        invariant log == old(log) + InterruptKills(monos.elements[..k])
        invariant stop
        decreases |monos.nodes| - k
      {
        var element := node.element;
        InterruptKillsAppend(monos.elements[..k], [element]);
        assert monos.elements[..k + 1] == monos.elements[..k] + [element];
        if element.Some? && element.value.pid > 0 {
          log := log + [Kill(-element.value.pid, SIGQUIT)];
        }
        assert k + 1 < |monos.nodes| ==> node.next == monos.nodes[k + 1];
        node := node.next;
        k := k + 1;
      }
      assert monos.elements[..k] == monos.elements;
    }

    /**
     * The body of the `for` loop in check_entities for the node at index `pos`: its
     * successor is read first; when its path no longer exists the entity is announced,
     * its watcher is sent SIGUSR1 and the node is unlinked.
     */
    method SweepNode(node: Node<Option<Entity>>, present: set<string>,
                     ghost kept: seq<Option<Entity>>, ghost rest: seq<Option<Entity>>)
      returns (next: Node?<Option<Entity>>, removed: bool)
      requires monos.Valid() && monos.elements == kept + rest
      requires rest != [] && rest[0].Some? && monos.nodes[|kept|] == node
      modifies this, monos, monos.Repr()
      ensures monos.Valid()
      ensures monos.Repr() == old(monos.Repr())
      ensures stop == old(stop)
      ensures removed <==> !FileExists(present, rest[0].value.path)
      ensures removed ==> && monos.elements == kept + rest[1..]
                          && log == old(log) + [FileDeleted(rest[0].value.name, rest[0].value.pid),
                                                Kill(rest[0].value.pid, SIGUSR1)]
      ensures !removed ==> monos.elements == (kept + [rest[0]]) + rest[1..] && log == old(log)
      ensures var pos := if removed then |kept| else |kept| + 1;
              next == if pos < |monos.nodes| then monos.nodes[pos] else null
    {
      ghost var pos := |kept|;
      assert monos.elements[pos] == rest[0];
      assert pos + 1 < |monos.nodes| ==> node.next == monos.nodes[pos + 1];
      next := node.next;
      var entity := node.element.value;
      removed := !FileExists(present, entity.path);
      if removed {
        log := log + [FileDeleted(entity.name, entity.pid), Kill(entity.pid, SIGUSR1)];
        var _, at := monos.Remove(node);
        assert monos.elements == kept + rest[1..];
      } else {
        assert monos.elements == (kept + [rest[0]]) + rest[1..];
      }
    }

    /**
     * One pass of the `for` loop in check_entities: every entity whose path no longer
     * exists is announced, its watcher is sent SIGUSR1, and it is unlinked.
     */
    method Sweep(present: set<string>)
      requires monos.Valid() && AllEntities(monos.elements)
      modifies this, monos, monos.Repr()
      ensures monos.Valid()
      ensures monos.elements == Survivors(old(monos.elements), present)
      ensures log == old(log) + SweepEvents(old(monos.elements), present)
      ensures stop == old(stop)
      ensures monos.Repr() == old(monos.Repr())
    {
      ghost var es := monos.elements;
      ghost var k := 0;
      ghost var kept: seq<Option<Entity>> := [];
      var node := monos.first;
      while node != null
        invariant monos.Valid()
        invariant monos.Repr() == old(monos.Repr())
        invariant 0 <= k <= |es| && AllEntities(es) && AllEntities(es[k..])
        invariant monos.elements == kept + es[k..]
        invariant node == if |kept| < |monos.nodes| then monos.nodes[|kept|] else null
        invariant KeptAfter(es[k..], present, kept) == KeptAfter(es, present, [])
        invariant LogAfter(es[k..], present, log) == LogAfter(es, present, old(log))
        invariant stop == old(stop)
        decreases |es| - k
      {
        assert es[k..][1..] == es[k + 1..];
        var removed;
        node, removed := SweepNode(node, present, kept, es[k..]);
        if !removed {
          kept := kept + [es[k]];
        }
        k := k + 1;
      }
      KeptAfterSurvivors(es, present, []);
      LogAfterEvents(es, present, old(log));
      assert [] + Survivors(es, present) == Survivors(es, present);
    }

    /**
     * One iteration of the `while` loop in check_entities: read the clock, sweep, and
     * once the registry is empty set `stop` and return 0; a failed clock read returns -1.
     * `code` is None when the loop goes on to its next iteration.
     */
    method Pass(env: PassEnv) returns (code: Option<int>)
      requires monos.Valid() && AllEntities(monos.elements)
      modifies this, monos, monos.Repr()
      ensures monos.Valid() && AllEntities(monos.elements)
      ensures monos.Repr() == old(monos.Repr())
      ensures !env.startClockOk ==>
                code == Some(-1) && monos.elements == old(monos.elements) && log == old(log) && stop == old(stop)
      ensures env.startClockOk ==>
                && monos.elements == Survivors(old(monos.elements), env.present)
                && log == old(log) + SweepEvents(old(monos.elements), env.present)
                && (monos.elements == [] ==> code == Some(0) && stop)
                && (monos.elements != [] && !env.endClockOk ==> code == Some(-1) && stop == old(stop))
                && (monos.elements != [] && env.endClockOk ==> code == None && stop == old(stop))
    {
      if !env.startClockOk {
        return Some(-1);
      }
      ghost var before := monos.elements;
      Sweep(env.present);
      SurvivorsAreEntities(before, env.present);
      if monos.size <= 0 {
        stop := true;
        return Some(0);
      }
      if !env.endClockOk {
        return Some(-1);
      }
      code := None;
    }

    /**
     * check_entities: passes run while `stop` is not set, until one of them returns. Each
     * element of `passes` is what the environment does during one pass; a SIGINT that
     * comes in before the loop test runs catch_sigint, which sets `stop`. `r` is None when
     * the passes run out before the loop returns.
     */
    method CheckEntities(passes: seq<PassEnv>) returns (r: Option<int>)
      requires monos.Valid() && AllEntities(monos.elements)
      modifies this, monos, monos.Repr()
      ensures monos.Valid()
      ensures var o := RunMonitor(old(monos.elements), passes, old(stop), old(log));
              r == o.code && monos.elements == o.remaining && log == o.log && stop == o.stop
    {
      var i := 0;
      ghost var o := RunMonitor(monos.elements, passes, stop, log);
      while !stop && i < |passes|
        invariant 0 <= i <= |passes|
        invariant monos.Valid() && AllEntities(monos.elements)
        invariant monos.Repr() == old(monos.Repr())
        invariant o == RunMonitor(monos.elements, passes[i..], stop, log)
        decreases |passes| - i
      {
        assert passes[i..][0] == passes[i] && passes[i..][1..] == passes[i + 1..];
        if passes[i].interrupted {
          CatchSigint();
        } else {
          r := Pass(passes[i]);
          if r.Some? {
            return;
          }
        }
        i := i + 1;
      }
      if stop {
        r := Some(0);
      } else {
        r := None;
      }
    }

    /**
     * The registration loop of main: argv[i] for i = 3 .. argc - 1 becomes an entity with
     * id i - 3 and is pushed; an argument whose path does not resolve is reported and
     * skipped (its id is still used up). `resolve` stands for realpath and errno.
     */
    method Register(argv: seq<string>, resolve: string -> Option<string>)
      requires monos.Valid()
      modifies this, monos, monos.Repr()
      ensures monos.Valid()
      ensures monos.elements == old(monos.elements) + Registered(argv, resolve, |argv|)
      ensures log == old(log) + Problems(argv, resolve, |argv|)
      ensures stop == old(stop)
    {
      var i := 3;
      var j := 0;
      while i < |argv|
        invariant 3 <= i
        invariant j == IdFor(i)
        invariant monos.Valid()
        invariant fresh(monos.Repr() - old(monos.Repr()))
        invariant EntriesFrom(argv, resolve, i, monos.elements) == EntriesFrom(argv, resolve, 3, old(monos.elements))
        invariant ProblemsFrom(argv, resolve, i, log) == ProblemsFrom(argv, resolve, 3, old(log))
        invariant stop == old(stop)
        decreases |argv| - i
      {
        var path := resolve(argv[i]);
        if path.None? {
          log := log + [FileProblem(argv[i])];
        } else {
          var entity := Entity(j, argv[i], path.value, 0, 0);
          var _ := monos.Push(Some(entity));
        }
        i := i + 1;
        j := j + 1;
      }
      if |argv| >= 3 {
        EntriesFromRegistered(argv, resolve, 3, old(monos.elements));
        ProblemsFromProblems(argv, resolve, 3, old(log));
      }
      assert old(monos.elements) + [] == old(monos.elements) && old(log) + [] == old(log);
    }
  }

  /** What the argument check at the start of main decides. */
  datatype ArgCheck = Proceed | Refuse(messages: seq<string>, code: int)

  const Usage: string :=
    "usage: ./monitor <time in seconds> <word to look for> <file #1>       <file #2> ... <file #n>\n"

  /**
   * The argument-count check of main: fewer than three arguments (program, duration,
   * word) or more than MAXENTRIES + 1 prints a complaint and the usage line, and main
   * returns -1.
   */
  function CheckArguments(argc: int): (r: ArgCheck)
    ensures r.Proceed? <==> 3 <= argc <= MaxEntries + 1
    ensures r.Refuse? ==> r.code == -1 && |r.messages| == 2 && r.messages[1] == Usage
    ensures argc < 3 ==> r.messages[0] == "Not enough parameters.\n"
    ensures argc > MaxEntries + 1 ==> r.messages[0] == "Too much arguments! Hard limit defined as 128.\n"
  {
    if argc < 3 then Refuse(["Not enough parameters.\n", Usage], -1)
    else if argc > MaxEntries + 1 then Refuse(["Too much arguments! Hard limit defined as 128.\n", Usage], -1)
    else Proceed
  }

  /**
   * Once the check lets main go on, the registration loop handles between 0 and
   * MAXENTRIES - 2 file arguments: each is either registered or reported.
   */
  lemma ArgumentsBoundRegistry(argv: seq<string>, resolve: string -> Option<string>)
    requires CheckArguments(|argv|).Proceed?
    ensures |Registered(argv, resolve, |argv|)| + |Problems(argv, resolve, |argv|)| == |argv| - 3
    ensures |Registered(argv, resolve, |argv|)| <= MaxEntries - 2
  {
    RegisteredCount(argv, resolve, |argv|);
  }

  /**
   * countdown_timer: a do-while loop that ticks once a second until `duration` ticks have
   * elapsed or `stop` is seen set. `stopSeen(k)` is the value of `stop` when the loop
   * condition is tested after the k-th tick. Returns 0 and the number of ticks.
   */
  method CountdownTimer(duration: int, stopSeen: nat -> bool) returns (r: int, elapsed: nat)
    ensures r == 0
    ensures 1 <= elapsed
    ensures elapsed >= duration || stopSeen(elapsed)
    ensures forall k :: 1 <= k < elapsed ==> k < duration && !stopSeen(k)
    ensures elapsed <= if duration < 1 then 1 else duration
    ensures (forall k :: 1 <= k ==> !stopSeen(k)) ==> elapsed == if duration < 1 then 1 else duration
  {
    elapsed := 1;
    while elapsed < duration && !stopSeen(elapsed)
      invariant 1 <= elapsed
      invariant elapsed <= if duration < 1 then 1 else duration
      invariant forall k :: 1 <= k < elapsed ==> k < duration && !stopSeen(k)
      decreases duration - elapsed
    {
      elapsed := elapsed + 1;
    }
    r := 0;
  }
}
