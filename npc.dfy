/*
 * The pursuit state machine of a non-player character: it asks the navigator
 * for a path to the player, follows the returned waypoints one tile at a time,
 * drops the path when it is close enough, and pauses while it is calm.
 */
module Npc {
  import opened Utils
  import opened Navigation

  /** What the physics body was last told: stand still, or head for a tile. */
  datatype Motion = Halted | Heading(tile: Position)

  /** What an NPC method reads from the scene at the moment it runs. */
  datatype Frame = Frame(
    now: int,                   // the scene timer
    distanceToTarget: int,      // distance from the NPC to the player
    position: Position,         // the NPC's own tile
    target: Position,           // the player's tile
    selfDead: bool,             // the NPC's health is used up
    playerDead: bool,           // the player's health is used up
    collide: bool,              // the collision check for the move about to be made
    tiles: map<Position, bool>) // the level's tiles, each with its visibility flag

  /** The ground tile under a position: the same x and y on layer 0. */
  function GroundTile(position: Position): Position {
    Position(position.x, position.y, Some(0))
  }

  /** Whether the ground tile under the NPC is visible; no tile there means not visible.
      A definition: AtVisibleTileIgnoresLayer, the constructor and Update state its use. */
  function AtVisibleTile(tiles: map<Position, bool>, position: Position): bool {
    var tile := GroundTile(position);
    if tile in tiles then tiles[tile] else false
  }

  /** Only x and y of the NPC's position matter: its own z is replaced by layer 0. */
  lemma AtVisibleTileIgnoresLayer(tiles: map<Position, bool>, p: Position, q: Position)
    requires p.x == q.x && p.y == q.y
    ensures AtVisibleTile(tiles, p) == AtVisibleTile(tiles, q)
  {
  }

  /** The motion after steering toward the head of path: the move is set, or zeroed on a
      collision; with no waypoint the motion stays as it was. */
  function Steered(motion: Motion, path: seq<Position>, collide: bool): Motion {
    if |path| > 0 then (if collide then Halted else Heading(path[0])) else motion
  }

  class NPC {
    const navigator: Navigator
    /** Distance to the target at or below which the NPC stops following a path. */
    const pathBreakpoint: int
    /** Waypoints still to visit; the last one is the tile the path was requested for. */
    var currentPath: seq<Position>
    /** The one path request this NPC waits for, if any. */
    var pathFindingTask: NavigatorTask?
    /** Pursuit and attacks pause until this time. */
    var stopCalmTimestamp: int
    var motion: Motion
    var visible: bool
    var destroyed: bool
    /** The NPC's requests to the navigator, withdrawals and completed callbacks, in order. */
    ghost var calls: seq<NavCall>

    ghost function Held(): set<NavigatorTask>
      reads this
    {
      if pathFindingTask == null then {} else {pathFindingTask}
    }

    /** The held task is exactly the outstanding request of a disciplined log, and it
        has not been withdrawn. */
    ghost predicate Valid()
      reads this, pathFindingTask
    {
      Disciplined(calls) && Outstanding(calls) == Held()
      && (pathFindingTask != null ==> !pathFindingTask.cancelled)
    }

    constructor (navigator: Navigator, pathBreakpoint: int, position: Position, tiles: map<Position, bool>)
      ensures Valid()
      ensures this.navigator == navigator && this.pathBreakpoint == pathBreakpoint
      ensures currentPath == [] && pathFindingTask == null && stopCalmTimestamp == 0
      ensures motion == Halted && visible == AtVisibleTile(tiles, position) && !destroyed
      ensures calls == []
    {
      this.navigator := navigator;
      this.pathBreakpoint := pathBreakpoint;
      currentPath := [];
      pathFindingTask := null;
      stopCalmTimestamp := 0;
      motion := Halted;
      visible := AtVisibleTile(tiles, position);
      destroyed := false;
      calls := [];
    }

    /** Whether pursuit is paused at time now. A definition: Calm and CalmHoldsEarlier state
        its properties. */
    function IsCalm(now: int): bool
      reads this
    {
      stopCalmTimestamp > now
    }

    /** Whether the NPC may pursue in this frame. With its current calm timestamp, a pursuing
        NPC is not calm at f.now nor at any later time, until Calm is called again; an NPC held
        back while both are alive has a timestamp above f.now, so it is calm at every t <= f.now. */
    function CanPursuit(f: Frame): (can: bool)
      reads this
      ensures can ==> !f.selfDead && !f.playerDead && forall t :: t >= f.now ==> !IsCalm(t)
      ensures !can ==> f.selfDead || f.playerDead || forall t :: t <= f.now ==> IsCalm(t)
    {
      !IsCalm(f.now) && !f.selfDead && !f.playerDead
    }

    /** Pauses pursuit for duration from now: calm strictly before now + duration, not after. */
    method Calm(duration: int, now: int)
      modifies this`stopCalmTimestamp
      ensures stopCalmTimestamp == now + duration
      ensures forall t :: t < now + duration ==> IsCalm(t)
      ensures forall t :: t >= now + duration ==> !IsCalm(t)
    {
      stopCalmTimestamp := now + duration;
    }

    /** A path request is due: none is held, the target is beyond the breakpoint, and the
        current path does not already end on the target's tile. */
    predicate NeedsPath(f: Frame)
      reads this
      ensures NeedsPath(f) ==> pathFindingTask == null && f.distanceToTarget > pathBreakpoint
      ensures NeedsPath(f) && |currentPath| > 0 ==> currentPath[|currentPath| - 1] != f.target
      ensures pathFindingTask == null && f.distanceToTarget > pathBreakpoint && currentPath == [] ==>
                NeedsPath(f)
    {
      pathFindingTask == null
      && f.distanceToTarget > pathBreakpoint
      && !(|currentPath| > 0 && EqualPositions(currentPath[|currentPath| - 1], f.target))
    }

    method UpdatePath(f: Frame)
      requires Valid()
      modifies this
      ensures Valid()
      ensures !old(NeedsPath(f)) ==> unchanged(this)
      ensures old(NeedsPath(f)) ==>
                pathFindingTask != null && fresh(pathFindingTask)
                && pathFindingTask.start == f.position && pathFindingTask.goal == f.target
                && calls == old(calls) + [Created(pathFindingTask)]
      ensures currentPath == old(currentPath) && stopCalmTimestamp == old(stopCalmTimestamp)
      ensures motion == old(motion) && visible == old(visible) && destroyed == old(destroyed)
    {
      if pathFindingTask != null {
        return;
      }
      if f.distanceToTarget <= pathBreakpoint {
        return;
      }
      if |currentPath| > 0 {
        var prev := currentPath[|currentPath| - 1];
        if EqualPositions(prev, f.target) {
          return;
        }
      }
      var task := navigator.CreateTask(f.position, f.target);
      ghost var log := calls + [Created(task)];
      assert log[..|log| - 1] == calls;
      pathFindingTask := task;
      calls := log;
    }

    /** The completion callback of the held request: `path` is None when no path exists.
        The navigator runs it only for a request that was not withdrawn. */
    method OnComplete(path: Option<seq<Position>>, f: Frame)
      requires Valid() && pathFindingTask != null
      modifies this
      ensures Valid() && pathFindingTask == null
      ensures calls == old(calls) + [Completed(old(pathFindingTask))]
      ensures path.None? ==>
                destroyed && currentPath == old(currentPath) && motion == old(motion)
      ensures path.Some? ==>
                destroyed == old(destroyed)
                && |currentPath| == (if |path.value| > 0 then |path.value| - 1 else 0)
                && (|path.value| > 0 ==> currentPath == path.value[1..])
                && motion == (if CanPursuit(f) then Steered(old(motion), currentPath, f.collide)
                              else old(motion))
      ensures stopCalmTimestamp == old(stopCalmTimestamp) && visible == old(visible)
    {
      ghost var log := calls + [Completed(pathFindingTask)];
      assert log[..|log| - 1] == calls;
      calls := log;
      pathFindingTask := null;
      if path.None? {
        destroyed := true;
        return;
      }
      var waypoints := path.value;
      if |waypoints| > 0 {
        waypoints := waypoints[1..];
      }
      currentPath := waypoints;
      if CanPursuit(f) {
        MoveToTile(f.collide);
      }
    }

    /** Drops the head waypoint when the NPC stands on it. */
    method NextPathTile(position: Position)
      requires |currentPath| > 0
      modifies this`currentPath
      ensures EqualPositions(old(currentPath)[0], position) ==> currentPath == old(currentPath)[1..]
      ensures !EqualPositions(old(currentPath)[0], position) ==> currentPath == old(currentPath)
    {
      var target := currentPath[0];
      if EqualPositions(target, position) {
        currentPath := currentPath[1..];
      }
    }

    /** Forgets the path and withdraws the held request, if there is one. */
    method ResetPath()
      requires Valid()
      modifies this, pathFindingTask
      ensures Valid()
      ensures currentPath == [] && pathFindingTask == null
      ensures old(pathFindingTask) != null ==>
                old(pathFindingTask).cancelled && calls == old(calls) + [Cancelled(old(pathFindingTask))]
                && old(pathFindingTask).cancels == old(pathFindingTask.cancels) + 1
      ensures old(pathFindingTask) == null ==> calls == old(calls)
      ensures stopCalmTimestamp == old(stopCalmTimestamp) && motion == old(motion)
      ensures visible == old(visible) && destroyed == old(destroyed)
    {
      currentPath := [];
      if pathFindingTask != null {
        pathFindingTask.Cancel();
        ghost var log := calls + [Cancelled(pathFindingTask)];
        assert log[..|log| - 1] == calls;
        calls := log;
        pathFindingTask := null;
      }
    }

    /** One step along the path: check the head waypoint, then steer toward the new head. */
    method MoveByPath(f: Frame)
      modifies this`currentPath, this`motion
      ensures old(currentPath) == [] ==> currentPath == [] && motion == old(motion)
      ensures old(currentPath) != [] ==>
                (if EqualPositions(old(currentPath)[0], f.position)
                 then currentPath == old(currentPath)[1..]
                 else currentPath == old(currentPath))
                && motion == Steered(old(motion), currentPath, f.collide)
    {
      if |currentPath| > 0 {
        NextPathTile(f.position);
        MoveToTile(f.collide);
      }
    }

    /** Steers toward the head waypoint, if there is one. */
    method MoveToTile(collide: bool)
      modifies this`motion
      ensures motion == Steered(old(motion), currentPath, collide)
    {
      if |currentPath| > 0 {
        var target := currentPath[0];
        motion := if collide then Halted else Heading(target);
      }
    }

    /** The per-frame update. Returns whether the NPC is within the breakpoint of its target. */
    method Update(f: Frame) returns (reached: bool)
      requires Valid()
      modifies this, pathFindingTask
      ensures Valid()
      ensures visible == AtVisibleTile(f.tiles, f.position)
      ensures stopCalmTimestamp == old(stopCalmTimestamp) && destroyed == old(destroyed)
      ensures !CanPursuit(f) ==>
                !reached && motion == Halted && currentPath == old(currentPath)
                && pathFindingTask == old(pathFindingTask) && calls == old(calls)
      ensures CanPursuit(f) && f.distanceToTarget > pathBreakpoint ==>
                !reached && pathFindingTask == old(pathFindingTask) && calls == old(calls)
                && (if old(currentPath) != [] && EqualPositions(old(currentPath)[0], f.position)
                    then currentPath == old(currentPath)[1..]
                    else currentPath == old(currentPath))
                && motion == (if old(currentPath) == [] then old(motion)
                              else Steered(old(motion), currentPath, f.collide))
      ensures CanPursuit(f) && f.distanceToTarget <= pathBreakpoint ==>
                reached && currentPath == [] && pathFindingTask == null && motion == old(motion)
                && (old(pathFindingTask) != null ==>
                      old(pathFindingTask).cancelled
                      && old(pathFindingTask).cancels == old(pathFindingTask.cancels) + 1)
                && calls == old(calls) + (if old(pathFindingTask) != null
                                          then [Cancelled(old(pathFindingTask))] else [])
    {
      visible := AtVisibleTile(f.tiles, f.position);
      if !CanPursuit(f) {
        motion := Halted;
        return false;
      }
      if f.distanceToTarget > pathBreakpoint {
        MoveByPath(f);
        return false;
      }
      ResetPath();
      return true;
    }
  }

  /** For a fixed calm timestamp, IsCalm is downward closed in time: calm at one time means
      calm at every earlier time. */
  lemma CalmHoldsEarlier(npc: NPC, now: int, earlier: int)
    requires earlier <= now
    ensures npc.IsCalm(now) ==> npc.IsCalm(earlier)
  {
  }

  /** While calm, an NPC does not pursue. */
  lemma CalmForbidsPursuit(npc: NPC, f: Frame)
    ensures npc.IsCalm(f.now) ==> !npc.CanPursuit(f)
  {
  }

  /** A valid NPC waits for at most one request, and holds a task exactly when one is
      outstanding. */
  lemma HeldIsTheOnlyOutstanding(npc: NPC)
    requires npc.Valid()
    ensures |Outstanding(npc.calls)| <= 1
    ensures npc.pathFindingTask == null <==> Outstanding(npc.calls) == {}
  {
  }
}
