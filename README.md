# NPC pursuit and grid-position helpers of a tower-defense game

This project models two parts of the game in Dafny and proves properties of them.

- **The NPC pursuit state machine** (`Npc.NPC`). An enemy holds a list of
  waypoints, at most one outstanding path request to the level's navigator, and
  a "calm until" timestamp. Each frame it decides whether it may pursue the
  player, whether it is close enough to stop following its path, and whether to
  drop the waypoint it stands on. Separately, it asks the navigator for a fresh
  path when it has none pending, the player is farther than the breakpoint, and
  the player has moved off the end of the current path. When the navigator reports back, it takes the path without its
  first tile, or destroys itself if no path exists.
- **The navigator as seen by the NPC** (`Navigation`). This is an abstract
  service that hands out task handles and accepts `Cancel` on them. A ghost log
  records the NPC's requests, withdrawals and completed callbacks. Pure
  predicates over that log state the discipline the NPC keeps: one request at a
  time, each withdrawn or completed at most once, never a request while one is
  outstanding. The NPC's object invariant `Valid()` ties its held task to that
  log, and every NPC method preserves it.
- **The grid-position helpers** (`Utils`):
  - position equality;
  - formatting seconds as `MM:SS`, minutes then seconds;
  - picking the positions nearest to a target;
  - the ring of eight positions two tiles around a tile.

Scene inputs that the NPC reads while a method runs come in as a `Frame`
value. These are the timer, the distance to the player, both tiles, the two
"dead" flags, the collision check and the tile-visibility map. Distances and
times are integers. A position is integer `x`, `y` and an optional `z`: a 2-D
position has no `z`, which stands for JavaScript's `undefined`.

Three behaviours of the code are worth stating outright:

- A failed path request destroys the NPC (`OnComplete` sets `destroyed`).
  It does not fall back to an idle state.
- A waypoint is dropped only on exact tile equality, not within an epsilon.
- A new path is requested when the distance to the player exceeds the
  breakpoint and the current path does not already end on the player's tile.

## Model

| member | source | states |
|---|---|---|
| `Utils.EqualPositions` | src/lib/utils.ts:26-31 | true exactly when the two positions are equal: same x, same y, and the same z or both without z |
| `Utils.EqualPositionsIsEquivalence` | src/lib/utils.ts:26-31 | position equality is reflexive, symmetric and transitive |
| `Utils.EqualFlatPositions` | src/lib/utils.ts:26-31 | two 2-D positions are equal exactly when their x and y agree |
| `Utils.FlatNeverEqualsLayered` | src/lib/utils.ts:26-31 | a 2-D position never equals a position with a z, even when z is 0 |
| `Utils.NatToDecimal` | src/lib/utils.ts:42 | the printed number is a non-empty string of digits that starts with '0' only for zero, so it has no leading zeros |
| `Utils.ParseNatToDecimal` | src/lib/utils.ts:42 | reading the printed digits back gives the number |
| `Utils.JsRemainder` | src/lib/utils.ts:40 | JavaScript `%` with divisor b: the result differs from the dividend by a multiple of b, lies in [0, b) for a non-negative dividend and in (-b, 0] for a negative one, so it takes the dividend's sign as truncating division does |
| `Utils.FormatTime` | src/lib/utils.ts:38-43 | the text always holds ':', and it starts with '0' exactly when the minutes, `Math.floor(value / 60)`, are below 10 |
| `Utils.ZeroPaddedField` | src/lib/utils.ts:42 | a padded field of n is at least two digits and reads back as n; it starts with '0' exactly when n < 10; it is exactly two digits when n < 100 |
| `Utils.FormatTimeFields` | src/lib/utils.ts:38-43 | for value >= 0 the text is minutes ':' seconds, both all digits, seconds exactly two; minutes read back as value / 60 and seconds as value % 60, so minutes * 60 + seconds == value; each field starts with '0' exactly when it is below 10 |
| `Utils.FormatTimeClock` | src/lib/utils.ts:38-43 | below 6000 seconds (100 minutes) the text has length 5 with ':' at index 2, and parsing both fields gives back value |
| `Utils.ReadIntToDecimal` | src/lib/utils.ts:42 | reading a printed integer back, minus sign included, gives the integer |
| `Utils.NegativeFields` | src/lib/utils.ts:39-40 | for value < 0 the minutes are negative and the seconds lie in (-60, 0]; minutes * 60 + seconds is the value for a multiple of 60 and one minute (60 seconds) less than it otherwise |
| `Utils.FormatTimeNegative` | src/lib/utils.ts:38-43 | for every value < 0 the text is '0', the signed minutes, ":0", the signed seconds; read back, the fields are the minutes and seconds of `Utils.NegativeFields`, so the text recombines to the value only for multiples of 60 |
| `Utils.FormatTimeOfMinusOne` | src/lib/utils.ts:38-43 | a negative value is printed with the sign after the pad: -1 gives "0-1:0-1" |
| `Utils.InsertBy` | src/lib/utils.ts:68 | inserting into a sorted sequence keeps it sorted by key and adds exactly that element |
| `Utils.SortBy` | src/lib/utils.ts:68 | the sort result is a permutation of the input, in non-decreasing key order |
| `Utils.SortBySorted` | src/lib/utils.ts:68 | an input already in key order comes back unchanged, so equal keys that are already in place are not reordered |
| `Utils.SliceEnd` | src/lib/utils.ts:69 | the length `slice(0, end)` keeps: never more than the input; for end >= 0 the smaller of end and the length; for end < 0 that many elements fewer than the length, and 0 when end reaches past the start |
| `Utils.SplitSorted` | src/lib/utils.ts:68-69 | after a sort, every element of the first k is at most every element left behind, and the elements left behind are exactly the rest |
| `Utils.FirstByKey` | src/lib/utils.ts:68-69 | sorting by a key and keeping `slice(0, count)` gives `SliceEnd` elements, all from the input (a sub-multiset), in non-decreasing key order, none with a larger key than an element left out |
| `Utils.SelectClosest` | src/lib/utils.ts:52-72 | returns min(count, number of positions) elements for count >= 0; a negative count drops that many from the end, as `slice` does |
| `Utils.SelectClosestOrdered` | src/lib/utils.ts:57-71 | the result is drawn from the input (a sub-multiset) and is in non-decreasing squared distance to the target |
| `Utils.SelectClosestIsNearest` | src/lib/utils.ts:57-71 | every returned position is at least as close to the target as every position not returned |
| `Utils.SelectClosestDefault` | src/lib/utils.ts:55 | with the default count of 1 and a non-empty input, the result is one input position at least as close as all others |
| `Utils.AroundPosition` | src/lib/utils.ts:79-95 | exactly 8 pairwise-distinct 2-D positions, and a position is among them exactly when it lies at offset {-2,0,2} by {-2,0,2} from the source other than (0,0), so none equals the source |
| `Utils.AroundPositionClockwise` | src/lib/utils.ts:85-94 | the ring is in the order N, NE, E, SE, S, SW, W, NW, with north toward smaller y |
| `Navigation.NavigatorTask.Cancel` | src/scenes/world/entities/npc/npc.ts:228 | after a cancel the task is withdrawn and its cancel count is one higher; a second cancel leaves it withdrawn |
| `Navigation.Navigator.CreateTask` | src/scenes/world/entities/npc/npc.ts:154-158 | a request yields a new, not withdrawn task for the given start and goal |
| `Navigation.DisciplinedAllowsEveryCall` | src/scenes/world/entities/npc/npc.ts:116-159 | every call of a disciplined log was allowed at its place in the log |
| `Navigation.EveryCallAllowedIsDisciplined` | src/scenes/world/entities/npc/npc.ts:116-159 | a log whose every call was allowed at its place is disciplined |
| `Navigation.DisciplinedIffEveryCallAllowed` | src/scenes/world/entities/npc/npc.ts:116-159 | the log discipline holds exactly when every logged call was allowed at its place in the log |
| `Navigation.AtMostOneOutstanding` | src/scenes/world/entities/npc/npc.ts:119-121 | under the discipline, at most one request is ever outstanding |
| `Navigation.SettledAtMostOnce` | src/scenes/world/entities/npc/npc.ts:136-231 | each task is cancelled or completed at most once, and only after it was created; an outstanding task has been neither |
| `Navigation.CreatedWhileIdle` | src/scenes/world/entities/npc/npc.ts:119-121 | every request in a disciplined log was made while no other request was outstanding |
| `Npc.NPC.constructor` | src/scenes/world/entities/npc/npc.ts:44-56 | a new NPC has an empty path, no task, calm timestamp 0 and an empty log; its visibility is that of its ground tile |
| `Npc.AtVisibleTile` | src/scenes/world/entities/npc/npc.ts:270-277 | a definition without a contract of its own: the ground tile (z = 0) under the NPC is present and marked visible, a missing tile counting as not visible. Its properties are in `Npc.AtVisibleTileIgnoresLayer`, `Npc.NPC.constructor` and `Npc.NPC.Update` |
| `Npc.AtVisibleTileIgnoresLayer` | src/scenes/world/entities/npc/npc.ts:271-274 | two positions with the same x and y give the same answer, whatever their z |
| `Npc.NPC.IsCalm` | src/scenes/world/entities/npc/npc.ts:109-111 | a definition without a contract of its own: calm while the time is before the calm timestamp. Its properties are in `Npc.NPC.Calm` and `Npc.CalmHoldsEarlier` |
| `Npc.CalmHoldsEarlier` | src/scenes/world/entities/npc/npc.ts:109-111 | `IsCalm` is downward closed in time: for a fixed calm timestamp, calm at t implies calm at every earlier t' |
| `Npc.NPC.CanPursuit` | src/scenes/world/entities/npc/npc.ts:259-265 | an NPC that may pursue is alive and faces a live player, and with its current timestamp `IsCalm` is false at `f.now` and at every later time, until `calm` is called again; an NPC held back while both are alive has a timestamp above `f.now`, so `IsCalm` holds at every t <= f.now |
| `Npc.NPC.NeedsPath` | src/scenes/world/entities/npc/npc.ts:119-134 | a path is requested only with no task held and the player beyond the breakpoint, and never when the current path ends on the player's tile; with no task, the player beyond the breakpoint and an empty path, one is always requested |
| `Npc.NPC.Calm` | src/scenes/world/entities/npc/npc.ts:102-111 | after calm(d) at time t the NPC is calm at every time before t + d and at no time from t + d on |
| `Npc.CalmForbidsPursuit` | src/scenes/world/entities/npc/npc.ts:259-265 | an NPC that is calm cannot pursue |
| `Npc.NPC.UpdatePath` | src/scenes/world/entities/npc/npc.ts:116-159 | if a task is held, the target is within the breakpoint, or the path already ends on the player's tile, nothing changes. Otherwise exactly one new task from the NPC's tile to the player's is created and held, and logged. The path and motion are untouched. The invariant is kept |
| `Npc.NPC.OnComplete` | src/scenes/world/entities/npc/npc.ts:136-152 | always clears the held task and logs its completion. With no path it destroys the NPC and leaves the path as it was. Otherwise the path becomes the returned one without its first tile: length minus one, floored at 0. It then steers toward the new head only when the NPC may pursue |
| `Npc.NPC.NextPathTile` | src/scenes/world/entities/npc/npc.ts:213-219 | removes the head waypoint exactly when it equals the NPC's tile; otherwise the path is unchanged |
| `Npc.NPC.ResetPath` | src/scenes/world/entities/npc/npc.ts:224-231 | the path is empty and no task is held afterwards. A held task receives exactly one `cancel` call, counted on the task, and is logged once. With no task held, nothing is cancelled, so a second call cancels nothing |
| `Npc.NPC.MoveByPath` | src/scenes/world/entities/npc/npc.ts:236-241 | with an empty path nothing changes. Otherwise the reached head is dropped and the NPC steers toward the new head |
| `Npc.NPC.MoveToTile` | src/scenes/world/entities/npc/npc.ts:246-254 | heads for the first waypoint, or halts on a collision; with no waypoint the motion is unchanged |
| `Npc.NPC.Update` | src/scenes/world/entities/npc/npc.ts:75-95 | visibility follows the ground tile. If the NPC cannot pursue: it halts, returns false, and leaves path, task and log untouched. Beyond the breakpoint: returns false, keeps the task, and only advances along the path. Otherwise: resets the path, cancelling a held task, and returns true |
| `Npc.HeldIsTheOnlyOutstanding` | src/scenes/world/entities/npc/npc.ts:119-121 | a valid NPC has at most one outstanding request, and holds a task exactly when one is outstanding |

## Left out

- The navigator's search, its task queue, the tile matrix and the level are not part of this model. The navigator is an abstract `CreateTask`/`Cancel` service, and the level is a map from tiles to visibility flags (`Frame.tiles`).
- Npc.NPC.OnComplete: requires that a task is held. This models the navigator's promise to run a callback only for a request that was not withdrawn. The model also assumes the callback never runs inside `CreateTask` itself.
- Npc.NPC.NextPathTile: requires a non-empty path. On an empty path the source would read a property of `undefined` and throw; its only caller checks the length first.
- Floating-point geometry is not modelled. Distances are integers given with the frame. `moveTo`'s angle and velocity become "heading for this tile" or "halted". The conversion from tile to world position is left out.
- `handleCollide`: the base class always answers false (npc.ts:190-193), and no override is part of this model. Its answer is the input `Frame.collide`, which covers the base answer and any override.
- `currentPath` is a value (`seq<Position>`). The sharing of the navigator's result array (npc.ts:146-147) and the in-place `shift` (npc.ts:217) are not captured; nothing else in this model holds that array.
- The engine side effects are left out: `super.update`, animations, tweens, `onDead`, the effect of `destroy` beyond the `destroyed` flag, and the warning message.
- Utils.SortBy: its contracts do not state that equal keys keep their input order in general; `Utils.SortBySorted` only shows that an input already in key order, ties included, is left unchanged.
- Utils.SelectClosest: its contracts do not state that ties keep their input order, so which of several equally near positions is kept is not stated.
- Utils.SelectClosest: uses squared distance in place of `Math.sqrt`. This gives the same order on integer coordinates, but floating-point rounding is not modelled.
- Utils.FormatTime: takes integer seconds only; fractional and NaN inputs are not modelled. JavaScript numbers are doubles: from 2^53 on, values are not exact, and minutes of 10^21 or more print in exponent form (such as "1e+21"). There the all-digits results of `Utils.NatToDecimal` and `Utils.FormatTimeFields` do not describe the source.
- `calcGrowth` (floating-point exponent), `throttle` (`setTimeout`), `isValidScreenSize` and `isMobileDevice` (browser globals) are not part of this model.
- The camera, HUD, building-info, crystal, tower and enemy-variant files are UI, engine glue or constant configuration. They are not part of this model.
