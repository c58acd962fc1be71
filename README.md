# Four-paddle Pong arena: a verified model of the game state

This project models the authoritative game state of a four-paddle Pong server.
Up to four clients each own one paddle slot, `pad1` (right wall), `pad2` (left
wall), `pad3` (top wall) or `pad4` (bottom wall). A ball bounces inside a
400×400 field. When the ball crosses the border of an active paddle that fails
to cover it, the last paddle that touched the ball scores a point. The paddle
that missed then holds the ball and serves it with `Enter`.

The server keeps this state in three global dictionaries:

- the field table: paddle positions, paddle activity and the ball position;
- the system table: which paddle holds the ball, the ball velocity, the last toucher and the score table;
- the player registry: client id to slot.

Every operation updates these dictionaries in place. The model follows that
shape in three modules:

- `PongRules` (`rules.dfy`) holds the constants and the pure arithmetic of
  the game:
  - Python's truncating `int(a / n)`;
  - the launch velocity of each paddle;
  - the three-band rebound-speed table;
  - where a scored-against paddle parks the ball;
  - the movement clamps;
  - the collision span;
  - the in-order scan for a free slot.
- `PongWorld` (`world.dfy`) holds the arena as a value (`World`). It has one
  function per server operation and the arena invariant `Inv`:
  - paddles stay on their rails;
  - at most one paddle holds the ball;
  - a held ball is at rest in front of its holder;
  - registered clients hold distinct slots, and those slots are exactly the
    active paddles.

  Its lemmas state what each operation does to the arena and that each
  operation keeps `Inv`. For the tick, each border ends in a miss (a point
  for the last toucher), a paddle hit or a wall bounce, tested in the order
  left, right, top, bottom, and the first miss ends the tick. The point,
  the last toucher and the velocity after a tick are stated against
  per-border descriptions folded over that order (`ToucherAfter`,
  `SpeedAfter`). For a message, the lemmas state the operation it routes
  to: `MovePad`, `Kick`, `ResetScore`, or nothing.
- `PongArena` (`arena.dfy`) holds the class `Arena`. Its fields are the three
  dictionaries (the per-paddle ones as `PadTable`, a record with one entry per
  slot). Its methods follow the server code statement by statement:
  - the slot scan and the score reset are loops;
  - the tick tests the four borders in order and returns early on a point.

  Each method is proved to produce exactly the `World` that the matching
  `PongWorld` function describes. The methods a client or the game loop
  calls directly (`CreatePad`, `Join`, `KickBall`, `PadRemove`, `Disconnect`,
  `MoveBall`, `ResetScore`, `MovePad`, `Receive`) also keep `Valid()`, which
  is `Inv` of the state. The steps inside a tick (`GetSpeed`, `ScorePoint`,
  `HitBorder`) are stated only as their effect on the state. They run only
  inside a tick, on a ball nobody holds, and `MoveBall` and `TickInv` state
  the invariant for the tick as a whole.

`n` stands for the number of open client connections, which divides every
speed. It is a parameter:

- A serve, a release and the dispatch of a message require `n >= 1`. Those
  requests arrive on, or concern, an open connection. A paddle move does not
  depend on `n`.
- The tick requires `n >= |players|`. Every registered player's connection is
  counted, and the tick also runs with no client connected.

## Model

| member | source | states |
|---|---|---|
| `PongRules.TruncDiv` | main.py:157-165 | Python's `int(a / n)`: the magnitude is `|a| / n` rounded down and the sign is that of `a` (truncation toward zero) |
| `PongRules.Launch` | main.py:144-170 | the served ball moves only away from the serving wall at `10 / n` (Pad1 and Pad4 negative, Pad2 and Pad3 positive); a disconnect launch adds exactly 1 to both components |
| `PongRules.Reflect` | main.py:196-203 | a border bounce negates the component perpendicular to that wall and keeps the other |
| `PongRules.Rebound` | main.py:281-317 | band table on the distance from the paddle centre (start + 40): below 16 gives `4/n`, 17..26 gives `8/n`, 27 or more gives `10/n`, each plus 1 for Pad1/Pad2; off the exact value 16 the result is non-positive when the ball is at or above/left of the centre and non-negative otherwise; at exactly 16 the old component is kept, negated when the ball is at or above/left of the centre |
| `PongRules.ServeSpot` | main.py:339-348 | the parked ball lies exactly 35 along the paddle from its start (inside the collision span), and 10 in front of the paddle (11 for Pad4) on the field side |
| `PongRules.ServeSpotInFront` | main.py:339-348 | a freshly parked ball satisfies the held-ball relation `InFront`: on the serving line and 35 to 37 along the paddle (the serve spot itself is at 35) |
| `PongRules.InFrontInside` | main.py:190-251 | a ball held in front of a paddle on its rail is strictly inside all four border lines, so no border test fires |
| `PongRules.StepBack` | main.py:387-389 | a move towards the low end subtracts 15 and stops at the floor |
| `PongRules.StepForward` | main.py:399-401 | a move towards the high end adds 15 and stops at the ceiling |
| `PongRules.StepsKeepPadOnRail` | main.py:384-432 | a paddle inside [8, 330] stays inside after any step |
| `PongRules.CarryKeepsOffset` | main.py:384-432 | a paddle and the ball it carries, stepped together, keep the ball 35 to 37 along the paddle |
| `PongRules.CarryOffsetExtremes` | main.py:387-407 | both bounds are reached: the ball sits 37 from the paddle start at the top clamp (45 against 8) and 35 at the bottom clamp (365 against 330) |
| `PongRules.FirstInactive` | main.py:137-141 | the scan returns an idle slot all of whose predecessors in the order pad1..pad4 are active |
| `PongRules.FirstInactiveAt` | main.py:137-141 | the scan stops exactly at the first idle slot |
| `PongRules.ParseCommandText` | main.py:458-462 | each recognised message text (`ArrowUp`, `ArrowDown`, `ArrowLeft`, `ArrowRight`, `Enter`, `Reset`) decodes to its own command |
| `PongRules.ParseCommandRecognised` | main.py:458-462 | a text is ignored exactly when it is none of the six command texts; a recognised text is the text of the command it decodes to |
| `PongWorld.InitialInv` | main.py:45-98 | the start state satisfies the invariant with Pad1 the sole holder of the ball |
| `PongWorld.FreeSlotExists` | main.py:448-451 | with fewer than four registered players some slot is idle, so the scan cannot run past pad4 |
| `PongWorld.CreatePadTakesLowestFree` | main.py:130-141 | a new player gets the lowest-numbered idle slot, which becomes active; nothing else changes |
| `PongWorld.CreatePadInv` | main.py:130-141 | assigning a slot keeps the assigned slots distinct and equal to the active paddles |
| `PongWorld.JoinCapacity` | main.py:448-453 | a client arriving with four players registered is a spectator and changes nothing; otherwise the arrival is exactly `CreatePad`: the client is registered on the lowest-numbered idle slot and exactly one player is added; the invariant is kept |
| `PongWorld.KickInv` | main.py:144-170 | a serve by the holder sets the velocity to `Launch` of its paddle and leaves no paddle holding the ball; ball position, paddles, registry, score and last toucher are unchanged; the invariant is kept |
| `PongWorld.DisconnectLaunchSidestep` | main.py:168-170 | a disconnect launch moves the ball exactly 1 per tick along the serving wall |
| `PongWorld.DisconnectLaunchStallsAlongAxis` | main.py:154-170 | a disconnect launch has no speed across the field exactly when Pad1 or Pad4 serves with 6 to 10 connections |
| `PongWorld.PadRemoveReleases` | main.py:113-127 | release: the paddle is idle at its default position and the client is unregistered; if the paddle held the ball, the ball was launched with the disconnect velocity and nobody holds it; no other paddle, the ball position and the score are unchanged; the invariant is kept |
| `PongWorld.DisconnectInv` | main.py:362-365 | a disconnect of a registered client is exactly `PadRemove` (held ball launched, paddle sent home idle, client unregistered); a spectator changes nothing; the invariant is kept |
| `PongWorld.BorderStep` | main.py:190-251 | handling one border changes neither the paddles nor the registry (its three outcomes are stated by `BorderMiss`, `BorderPaddleHit` and `BorderIdleWall`) |
| `PongWorld.Border` | main.py:190-251 | a border test, crossed or not, changes neither the paddles nor the registry (its outcomes, including the velocity, are stated by `BorderScore`) |
| `PongWorld.BorderMiss` | main.py:192-201 | when the crossed border's paddle is active and does not cover the ball, a point is scored: exactly the last toucher's entry rises by 1; the paddle that missed becomes the last toucher and takes the ball, at rest at its serve spot |
| `PongWorld.BorderPaddleHit` | main.py:192-198 | when the crossed border's paddle is active and covers the ball, there is no point; the speed towards the wall is negated, the paddle becomes the last toucher, and the speed along the wall is `Rebound` of the paddle, the ball and the old component; position, holder and score stay |
| `PongWorld.BorderIdleWall` | main.py:202-203 | when the crossed border's paddle is idle, there is no point; only the speed towards that wall is negated; the last toucher, position, holder and score stay |
| `PongWorld.BorderScore` | main.py:190-251 | a border test scores exactly when its border was crossed and its active paddle does not cover the ball; the point goes to the last toucher, and the paddle that missed alone holds the ball at rest at its serve spot as the new last toucher; without a point the ball, holder and scores stay, the last toucher becomes the paddle if it covered a crossed border and is otherwise unchanged, and the velocity is unchanged if the border was not crossed, reflected at an idle wall, and at an active paddle negated towards the wall with the component along it from `Rebound` |
| `PongWorld.BorderInv` | main.py:190-251 | a border test on a free ball keeps the invariant; the ball stays free unless a point is scored, and then only the crossed paddle holds it |
| `PongWorld.TickLeavesServeAlone` | main.py:173-253 | while a paddle holds the ball, a tick changes nothing and scores nothing |
| `PongWorld.TickFreeFlight` | main.py:180-253 | a ball that reaches no border line just moves by its velocity |
| `PongWorld.TickEmptyArenaBounces` | main.py:190-253 | with every paddle idle, a tick never scores, advances the ball and negates each velocity component whose border was crossed |
| `PongWorld.TickScore` | main.py:173-253 | a tick awards one point when it reports scoring and none otherwise; on a score the missing paddle was active and crossed and now alone holds the ball, at rest in its serve spot, as last toucher; without a score the ball has advanced by its velocity, the holder is unchanged, and the last toucher is unchanged or an active paddle whose border was crossed and whose span covers the ball |
| `PongWorld.TickFirstMiss` | main.py:173-253 | a tick scores exactly when some crossed border's active paddle misses the advanced ball; the point is against the first such paddle in the order left, right, top, bottom, and goes to whoever touched the ball last before that border, possibly a paddle that covered an earlier border in the same tick; without a point, no paddle misses, the scores stay, and the last toucher is the last paddle in that order that covered a crossed border |
| `PongWorld.TickHeldNoMiss` | main.py:173-253 | while a paddle holds the ball, a tick changes nothing, the ball stays put, and no border is crossed, so no paddle misses or covers |
| `PongWorld.TickRebounds` | main.py:180-253 | a tick without a point leaves the velocity `SpeedAfter` gives: starting from the old velocity, each border of left, right, top, bottom that the advanced ball crossed either reflects it (idle wall) or negates the component towards the wall and sets the one along it from `Rebound` (covering paddle), in that order |
| `PongWorld.TickInv` | main.py:173-253 | the tick keeps the invariant, including "at most one holder" |
| `PongWorld.ScoreAwardsPoint` | main.py:329-351 | a score adds exactly 1 to the last toucher's entry, makes the missed paddle the sole holder and the last toucher, stops the ball at its serve spot, and keeps the invariant |
| `PongWorld.ResetScoreZeroes` | main.py:320-326 | every score entry becomes 0; positions, velocity, holder, last toucher and registry are unchanged |
| `PongWorld.MovePadSteps` | main.py:374-432 | a move shifts only the client's paddle by 15 along its own axis, clamped at 8 and 330; keys of the other orientation change nothing; the ball moves with the paddle only if that paddle holds it (clamped at 45 and 365); nothing else changes |
| `PongWorld.MovePadInv` | main.py:374-432 | moves keep the paddle in [8, 330], keep a carried ball in front of it, and keep the invariant |
| `PongWorld.DispatchInv` | main.py:455-464 | a command fails only for an arrow or `Enter` from a client without a slot; an arrow from a player is exactly that player's `MovePad`; `Enter` from the holder is exactly `Kick` without disconnect (launch at `Launch(p, n, false)`, no holder, position, paddles and score unchanged); `Enter` from a player without the ball changes nothing; `Reset` from anyone is exactly `ResetScore` (every score entry zeroed); other text changes nothing; every applied command keeps the invariant |
| `PongWorld.SoloServeBouncesOffIdleWall` | main.py:130-203 | a lone client gets pad1, `Enter` launches at velocity (0, -10), and at the left border the idle pad2 wall sends the ball back at (0, 10) without a point |
| `PongArena.Arena.constructor` | main.py:45-98 | the start state, with Pad1 the sole holder |
| `PongArena.Arena.GetPad` | main.py:104-110 | the slot of a registered client is one of the registered slots |
| `PongArena.Arena.CreatePad` | main.py:130-141 | the scan loop assigns the slot `CreatePad` describes and keeps `Valid()` |
| `PongArena.Arena.Join` | main.py:448-453 | admission as `Join` describes it |
| `PongArena.Arena.KickBall` | main.py:144-170 | the serve as `Kick` describes it; afterwards nobody holds the ball |
| `PongArena.Arena.PadRemove` | main.py:113-127 | the release as `PadRemove` describes it |
| `PongArena.Arena.Disconnect` | main.py:362-365 | the disconnect as `Disconnect` describes it |
| `PongArena.Arena.CheckPadCol` | main.py:256-278 | the two-branch span test gives the same answer as `PongWorld.CheckPadCol`: the ball lies between the paddle's start and 90 beyond it, along the paddle's axis |
| `PongArena.Arena.GetSpeed` | main.py:281-317 | the band computation yields the velocity that `Rebound` gives |
| `PongArena.Arena.ScorePoint` | main.py:329-351 | the score update as `Score` describes it |
| `PongArena.Arena.HitBorder` | main.py:190-251 | one border block as `BorderStep` describes it |
| `PongArena.Arena.MoveBall` | main.py:173-253 | the tick with its early return as `Tick` describes it; keeps `Valid()` |
| `PongArena.Arena.ResetScore` | main.py:320-326 | the loop zeroes the whole score table and keeps `Valid()` |
| `PongArena.Arena.MovePad` | main.py:374-432 | the paddle and ball update as `MovePad` describes it; keeps `Valid()` |
| `PongArena.Arena.Receive` | main.py:455-464 | one inbound message as `Dispatch` describes it; a failed slot lookup changes nothing |

## Behaviour worth knowing

The code decides in each case below; where a natural reading of the game's
design differs, that reading is stated first.

- A launch forced by a disconnect is meant to keep the ball from stalling
  between two empty walls. The code adds 1 to both components. For Pad1 or
  Pad4 with 6 to 10 open connections, the component across the field is then
  0, so the ball only drifts along the wall (`DisconnectLaunchStallsAlongAxis`).
  From 11 connections on, that component is +1 for every paddle. For Pad1 and
  Pad4 this points back towards their own wall.
- Pad1 (right wall) and Pad4 (bottom wall) serve in the negative direction,
  Pad2 (left wall) and Pad3 (top wall) in the positive direction: every
  serve leaves its own wall.
- The rebound table adds 1 to the band speed for Pad1 and Pad2 only.
- A distance of exactly 16 from the paddle centre falls between the bands and
  keeps the previous speed component. That component is still negated when
  the ball is at or above/left of the centre.
- With 5 or more connections the bands for Pad3/Pad4 can give 0.
- Reflecting a velocity does not move the ball. All four border tests of a
  tick therefore see the same advanced position.
- A ball carried by its paddle is clamped to [45, 365], while the paddle is
  clamped to [8, 330]. At the top end the ball stops 37 rather than 35 from
  the paddle's start (`CarryOffsetExtremes`). The offset stays within 35..37,
  so the held ball never reaches a border line.

## Left out

- Web plumbing: application setup, settings, templates, static files and the
  favicon route contain no game logic.
- Network I/O: websocket accept, send and broadcast, JSON encoding of the
  field and score messages, welcome-message formatting and logging. The only
  trace of the connection list is the count `n`.
- Concurrency: the asyncio lock, the async structure and the 33 ms streaming
  loop with its sleep. Each operation is one sequential step on the arena.
- Floating point: Python `/` yields floats, but every coordinate stays
  integral. The band limits 80/5 and 80/3 are compared as `5*diff` and
  `3*diff` against 80.
- `PongArena.Arena.CreatePad`: it requires a fresh client id and fewer than
  four players, as the caller guarantees. With a reused id the server
  overwrites the registry entry and leaves the old slot active. If no slot
  were idle, the scan would reach the ball entry and raise. The short-lived
  `None` entry that the server writes before the scan is not modelled, since
  nothing can observe it in a sequential step.
- `PongArena.Arena.KickBall`: it requires that the client's paddle holds the
  ball, as both callers check before calling.
- `PongArena.Arena.Receive`: an arrow or `Enter` from a spectator makes the
  server's slot lookup raise. The model reports this as a failed outcome with
  the state unchanged. The server's handler then ends without calling
  disconnect, so that socket stays counted in `n`; the model does not capture
  this.
- The unused `get_speed(None)` branch, which does nothing.
- Broadcasting the score after a point or a reset.
