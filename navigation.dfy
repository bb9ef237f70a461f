/*
 * The path-finding service as a requester sees it: `createTask` hands out a
 * task handle, `cancel` withdraws it, and the service later reports the path
 * of a task that was not withdrawn. The search itself is not modelled; what is
 * modelled is the discipline a requester keeps over its own calls, as a log.
 */
module Navigation {
  import opened Utils

  /** Handle of one path request. */
  class NavigatorTask {
    const start: Position
    const goal: Position
    var cancelled: bool
    /** How often `cancel` was called on this handle. */
    ghost var cancels: nat

    constructor (start: Position, goal: Position)
      ensures this.start == start && this.goal == goal && !cancelled && cancels == 0
    {
      this.start := start;
      this.goal := goal;
      cancelled := false;
      cancels := 0;
    }

    /** Withdraws the request; withdrawing twice is the same as once, but each call counts. */
    method Cancel()
      modifies this
      ensures cancelled && cancels == old(cancels) + 1
    {
      cancelled := true;
      cancels := cancels + 1;
    }
  }

  /** The request intake of the path-finding service. */
  class Navigator {
    constructor ()
    {
    }

    method CreateTask(start: Position, goal: Position) returns (task: NavigatorTask)
      ensures fresh(task)
      ensures task.start == start && task.goal == goal && !task.cancelled && task.cancels == 0
    {
      task := new NavigatorTask(start, goal);
    }
  }

  /** One event between a requester and the service: a request it made, a request it
      withdrew, or a request whose completion callback ran. */
  datatype NavCall =
    | Created(task: NavigatorTask)
    | Cancelled(task: NavigatorTask)
    | Completed(task: NavigatorTask)

  /** Tasks requested and neither withdrawn nor completed. */
  ghost function Outstanding(log: seq<NavCall>): set<NavigatorTask>
    decreases |log|
  {
    if log == [] then {}
    else
      var before := Outstanding(log[..|log| - 1]);
      match log[|log| - 1]
      case Created(t) => before + {t}
      case Cancelled(t) => before - {t}
      case Completed(t) => before - {t}
  }

  /** A request may be made only when nothing is outstanding and for a new task; a
      withdrawal or a completion only for an outstanding task. */
  ghost predicate Allowed(log: seq<NavCall>, call: NavCall) {
    match call
    case Created(t) => Outstanding(log) == {} && forall e :: e in log ==> e.task != t
    case Cancelled(t) => t in Outstanding(log)
    case Completed(t) => t in Outstanding(log)
  }

  /** Every event of the log was allowed when it happened. */
  ghost predicate Disciplined(log: seq<NavCall>)
    decreases |log|
  {
    log == [] || (Disciplined(log[..|log| - 1]) && Allowed(log[..|log| - 1], log[|log| - 1]))
  }

  /** How often the log withdraws or completes task t. */
  ghost function Settlements(log: seq<NavCall>, t: NavigatorTask): nat
    decreases |log|
  {
    if log == [] then 0
    else
      var e := log[|log| - 1];
      Settlements(log[..|log| - 1], t) + (if !e.Created? && e.task == t then 1 else 0)
  }

  /** A disciplined log allowed each event at its place. */
  lemma {:induction false} DisciplinedAllowsEveryCall(log: seq<NavCall>, i: nat)
    requires Disciplined(log) && i < |log|
    ensures Allowed(log[..i], log[i])
    decreases |log|
  {
    var n := |log| - 1;
    if i < n {
      var init := log[..n];
      DisciplinedAllowsEveryCall(init, i);
      assert init[..i] == log[..i] && init[i] == log[i];
    }
  }

  /** A log whose every event was allowed at its place is disciplined. */
  lemma {:induction false} EveryCallAllowedIsDisciplined(log: seq<NavCall>)
    requires forall i :: 0 <= i < |log| ==> Allowed(log[..i], log[i])
    ensures Disciplined(log)
    decreases |log|
  {
    if log != [] {
      var n := |log| - 1;
      var init := log[..n];
      forall i | 0 <= i < n
        ensures Allowed(init[..i], init[i])
      {
        assert init[..i] == log[..i] && init[i] == log[i];
      }
      EveryCallAllowedIsDisciplined(init);
      assert Allowed(log[..n], log[n]);
    }
  }

  /** The recursive definition says the same as "each event was allowed at its place". */
  lemma DisciplinedIffEveryCallAllowed(log: seq<NavCall>)
    ensures Disciplined(log) <==> forall i :: 0 <= i < |log| ==> Allowed(log[..i], log[i])
  {
    if Disciplined(log) {
      forall i | 0 <= i < |log|
        ensures Allowed(log[..i], log[i])
      {
        DisciplinedAllowsEveryCall(log, i);
      }
    }
    if forall i :: 0 <= i < |log| ==> Allowed(log[..i], log[i]) {
      EveryCallAllowedIsDisciplined(log);
    }
  }

  /** A disciplined requester never has more than one request outstanding. */
  lemma {:induction false} AtMostOneOutstanding(log: seq<NavCall>)
    requires Disciplined(log)
    ensures |Outstanding(log)| <= 1
    decreases |log|
  {
    if log != [] {
      var init := log[..|log| - 1];
      AtMostOneOutstanding(init);
      var before := Outstanding(init);
      match log[|log| - 1]
      case Created(t) =>
        assert Outstanding(log) == {t};
      case Cancelled(t) =>
        assert Outstanding(log) <= before;
      case Completed(t) =>
        assert Outstanding(log) <= before;
    }
  }

  /** Each task of a disciplined log is withdrawn or completed at most once, never
      before it was requested, and an outstanding task has been neither. */
  lemma {:induction false} SettledAtMostOnce(log: seq<NavCall>, t: NavigatorTask)
    requires Disciplined(log)
    ensures Settlements(log, t) <= 1
    ensures t in Outstanding(log) ==> Created(t) in log && Settlements(log, t) == 0
    ensures Settlements(log, t) == 1 ==> Created(t) in log && t !in Outstanding(log)
    ensures Created(t) !in log ==> Settlements(log, t) == 0 && t !in Outstanding(log)
    decreases |log|
  {
    if log != [] {
      var init := log[..|log| - 1];
      var e := log[|log| - 1];
      SettledAtMostOnce(init, t);
      assert log == init + [e];
      if e.task == t {
        match e
        case Created(_) =>
          assert Created(t) !in init by {
            assert forall c :: c in init ==> c.task != t;
          }
        case Cancelled(_) =>
        case Completed(_) =>
      } else {
        assert Created(t) in log <==> Created(t) in init;
      }
    }
  }

  /** A request is only ever made while nothing is outstanding. */
  lemma CreatedWhileIdle(log: seq<NavCall>, i: nat)
    requires Disciplined(log) && i < |log| && log[i].Created?
    ensures Outstanding(log[..i]) == {}
  {
    DisciplinedAllowsEveryCall(log, i);
  }
}
